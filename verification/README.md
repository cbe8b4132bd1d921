# The bitset of `contrib/eggbitset`, verified

`EggBitset` is a set of 32-bit integers over a roaring bitmap: a sorted array of 16-bit keys, each with one container
that is a sorted array, a bitset or a run list. Everything in it is a fast, mutable form of one simple thing, a finite
set of integers. This project models the engine and the public operations the way they work, step by step on buffers
and fields, and proves what they mean for that set.

The modules follow the layers of the code.

- **Sets and words.** `IntSets`, `Ranks`, `SortedArrays`, `Words`, `WordMasks`, `Bitsets`, `Memory`.
- **Run lists.** `Runs` (canonical lists), `RunXor`, `RunSplices`, `RunMerges` (the algebra behind the scans),
  `RunContainers`, `RunAlgebra`, `RunNegation`, `RunQueries` (the scans themselves, on buffers with a capacity).
- **Arrays and bitsets.** `ArrayKernels`, `ArrayContainers`, `BitsetKernels`, `BitsetOps`, `BitsetLists`,
  `BitsetQueries`, `BitsetRuns`, and the kernels that mix representations: `MixedArrays`, `MixedBitsets`, `MixedRuns`.
- **Containers.** `Containers`, `ContainerUpdates`, `ContainerQueries`, `ContainerOps`, `ContainerCursors`,
  `LazyContainers`: the dispatch over representations, for every pair of them.
- **Bitmaps.** `Slots`, `RoaringArrays`, `Bitmaps`, `SlotMerges`, `BitmapOps`, `BitmapQueries`, `BitmapEquality`,
  `Iterators`, `LazyBitmaps`, `PriorityQueues`, `UnionHeap`.
- **Formats and sharing.** `Bytes`, `ByteDigits`, `Format` (the portable format in integers, apart from the code),
  `Encoding`, `Serialization`, `Deserialization`, `Images` (small images byte for byte), `CopyOnWrite`.
- **The public bitset.** `Splices`, `EggBitsets`, `EggIterators`, `ListMirrors`, `Representations`,
  `Overruns`, `Histories`.

The main results:

- In-place kernels never overwrite what they have still to read: array union and difference in one buffer, the skewed
  intersection into either input, run union after a shift, range negation with one run of look-ahead in a full buffer,
  the backward pass of a range insertion and the forward pass of a range removal.
- Run lists stay canonical, and canonical lists are unique; so equality of containers and of bitmaps, in any mix of
  representations, is equality of sets.
- The conversion of a bitset to runs emits exactly the maximal runs, as many as were counted beforehand.
- The four in-place set operations on bitmaps, range insertion and removal, rank, select, minimum and maximum mean what
  they should for the set; intersection and select have one exception each, with its exact condition (see below).
- A loop with the iterator, forwards, backwards or from a target on, visits what it should exactly once and in order. A
  step and a step back return to the same value, but for one value in a run at either end.
- A rectangle that the guards accept is drawn as a rectangle of the grid exactly when it stays inside the grid and inside
  32 bits.
- The union of many bitmaps with a heap is the union of all of them, the heap stays a heap, nothing but temporaries is
  written, and the repair at the end restores exact cardinalities.
- What is written is an image of the portable format as `Format` describes it, byte by byte; and of any buffer, the
  reader gives back exactly the slots that it holds in those terms. Two readers agree on every buffer but those with
  certain negative sizes. Reading back what was written is the identity exactly when every bitset holds more than 4096
  values; the offsets are exact.
- Under copy-on-write, every history of creations, copies, flag changes, additions, removals and frees is a history of
  plain sets up to the first copy without the flag of a bitmap that shares a container, which the history itself decides;
  the counters are exact and nothing leaks.
- Every sequence of mutators of any number of bitsets, from empty ones, is a sequence of set operations, and leaves
  every bitmap in order: keys increasing, no empty container, arrays of at most 4096 sorted values, canonical runs,
  bitsets with their exact cardinality and at least 2048 values. Only an intersection that leaves its buffer can end such
  a sequence, and the two sets show that it may.
- A splice mirrors the change of a list, as `ListMirrors` shows. Splicing places in and out again is the
  identity exactly when no value overflows.

Operations that change state are methods on arrays and classes, proved against functions on sequences and sets; what
the operations promise beyond one call is proved about those functions. A 16-bit field is a bounded integer, so that
every narrowing in the code is a proof obligation; 32-bit sums that may wrap are written out. `hamming`, the count of
trailing zeros and the count of leading zeros are specified functions.

## Where code and documentation differ

- The intersection of a run list of at most 4096 values with a bitset allocates one slot for every value of the smaller
  of the two, and stores each run value before it tests it (`contrib/eggbitset/roaring.c:5308-5321`). When the bitset lies
  in the runs and a run value lies behind it, that store is one slot past the buffer. `MixedArrays.MeetRuns` says exactly
  when, `MixedArrays.FewValuesFit` gives a guard, `Overruns.ReachOverrun` leads there by range operations alone. The
  methods `And`, `AndInplace` and `Combine` stop at such a store and say so; what they promise of the result holds when
  there is none.
- `bitset_container_select` compares with a 32-bit sum (`contrib/eggbitset/roaring.c:4010-4014`), which is 0 when all 2^32
  values are set and the last container is a bitset: its values are then not found, see `BitmapQueries.Select`. The same
  sum of a run list never wraps.
- `ra_portable_deserialize_size` is documented to return 0 exactly when there is no valid bitmap
  (`contrib/eggbitset/roaring.c:10981-10982`). It never rejects a negative size, whose products wrap around as they do in
  two's complement; `Deserialization.DeserializeSize` says when the other reader fails and this one does not.
- The guards accept arguments that describe no rectangle of the grid, for three reasons: the product of
  height and stride wraps around (`contrib/eggbitset/eggbitset.c:493`, `Splices.WrongRectangle`); the sum of column and
  width wraps around (`contrib/eggbitset/eggbitset.c:492`, `Splices.WideRectangle`); and removal compares the width alone
  with the stride, so that a row may run over the edge of the grid (`contrib/eggbitset/eggbitset.c:523`,
  `Splices.BrokenRow`). `Splices.AcceptedRectangle` says exactly which accepted rectangles are drawn as such.
- `ra_copy` without the flag copies the typecodes of shared containers, and puts plain ones behind them
  (`contrib/eggbitset/roaring.c:10489-10497`): see `CopyOnWrite.Store.Clone`.
- `egg_bitset_iter_init_first` is documented to give `G_MAXUINT` on an empty set (`contrib/eggbitset/eggbitset.c:788`);
  the code gives 0, as `EggIterators.InitFirst` says.
- A bitset is meant to hold more than 4096 values. Range removals compare with `<` (`contrib/eggbitset/roaring.h:5942`)
  and leave bitsets of 4096, and conversions of long run lists make bitsets of 2048 and more. The invariant that the
  code does keep is 2048. The portable format relies on the stronger bound: see `Deserialization.RoundTrip` and
  `Deserialization.ReachSmallBitset`.
- The maximum of a bitset never looks at word 0 (`contrib/eggbitset/roaring.c:4055-4064`). The result is right all the
  same: only a bitset of at most 64 values can have its largest one in word 0, and the invariant excludes those.
- At the largest 32-bit value in a run, a failing step forward leaves the iterator where it is, so that a step back
  afterwards gives the predecessor and not the value itself; likewise at 0. These are the only values to which a step there
  and a step back do not return: `EggIterators.NextThenPrevious`, `EggIterators.PreviousThenNext`.

## Model

| member | source | states |
|---|---|---|
| `Runs.CanonicalUnique` | contrib/eggbitset/roaring.h:2684-2691 | two canonical run lists with the same values are the same list |
| `Runs.BoundaryCount` | contrib/eggbitset/roaring.c:7356-7403 | a canonical list of n runs has exactly 2n places where membership changes |
| `Runs.XorRunCount` | contrib/eggbitset/roaring.c:5798-5824 | negating `[lo, hi)` needs one run more exactly when neither end of the interval is a boundary of the set: the meaning of the membership tests before an in-place negation |
| `RunXor.ExclusiveTailIsXor` | contrib/eggbitset/roaring.c:7356-7403 | the last run and the appended one become the canonical list of their symmetric difference, every field within 16 bits |
| `RunXor.AppendExclusiveIsXor` | contrib/eggbitset/roaring.c:7356-7403 | one append is the symmetric difference with the appended run and keeps the list canonical |
| `RunXor.XorPrefixStep` | contrib/eggbitset/roaring.c:6877-6912 | the start-ordered merge keeps its invariant: symmetric difference of the consumed runs, canonical, ready for the next run of either side |
| `RunXor.XorPrefixDone` | contrib/eggbitset/roaring.c:6877-6912 | the finished merge is the canonical list of the symmetric difference, in at most n1 + n2 runs |
| `RunXor.NegationFits` | contrib/eggbitset/roaring.c:5786-5858 | the membership tests at the two ends decide whether the result needs a slot more than the list has |
| `RunSplices.SpliceReplaces` | contrib/eggbitset/roaring.h:2777-2801 | replacing the runs that an interval meets by one covering run adds exactly the interval |
| `RunSplices.SpliceShrinks` | contrib/eggbitset/roaring.h:2832-2877 | replacing the runs that an interval meets by their remainders removes exactly the interval |
| `RunContainers.RunContainer.Search` | contrib/eggbitset/roaring.h:2244-2260 | index of the run that starts at the key, or its insertion point |
| `RunContainers.RunContainer.Contains` | contrib/eggbitset/roaring.h:2392-2402 | true exactly for the values of the list |
| `RunContainers.RunContainer.SmartAppendExclusive` | contrib/eggbitset/roaring.c:7356-7403 | the buffer afterwards holds the list that the specification of one append gives, and one slot of room suffices |
| `RunContainers.RunContainer.Append` | contrib/eggbitset/roaring.h:2511-2525 | the buffer afterwards holds the union with the appended run, as the specification of one append gives it; returns the run now last |
| `RunContainers.RunContainer.AppendValue` | contrib/eggbitset/roaring.h:2546-2561 | appending a value adds it, by a new run or by extending the last one |
| `RunContainers.RunContainer.IsFull` | contrib/eggbitset/roaring.h:2581-2584 | true exactly when the list is the single run of all 65536 values |
| `RunContainers.RunContainer.Add` | contrib/eggbitset/roaring.c:6625-6672 | old set plus the value, still canonical through fuse, extend and insert; true exactly when the value was missing |
| `RunContainers.RunContainer.Remove` | contrib/eggbitset/roaring.h:2355-2389 | old set minus the value, still canonical through shrink, split and deletion; true exactly when the value was there |
| `RunContainers.RunContainer.FindRun` | contrib/eggbitset/roaring.h:2265-2282 | the run that holds the value, or its insertion point |
| `RunContainers.RunContainer.CountLess` | contrib/eggbitset/roaring.h:2290-2308 | the number of runs that end too early to touch the value |
| `RunContainers.RunContainer.CountGreater` | contrib/eggbitset/roaring.h:2310-2328 | the number of runs that start too late to touch the value |
| `RunContainers.RunContainer.AddRangeNRuns` | contrib/eggbitset/roaring.h:2777-2801 | one run takes the place of all runs that the range meets: the set grows by exactly the range |
| `RunContainers.RunContainer.AddRange` | contrib/eggbitset/roaring.h:2806-2811 | old set plus `[min, max]`, canonical |
| `RunContainers.RunContainer.RemoveRange` | contrib/eggbitset/roaring.h:2832-2877 | old set minus `[min, max]`, canonical, also when both end runs are cut or one run is split in two |
| `RunAlgebra.ContainerXor` | contrib/eggbitset/roaring.c:6877-6912 | symmetric difference of the two lists, canonical |
| `RunAlgebra.Union` | contrib/eggbitset/roaring.c:6760-6812 | union of the two lists, canonical |
| `RunAlgebra.UnionInplace` | contrib/eggbitset/roaring.c:6816-6872 | union in the buffer of the first list, whose runs move to the end of the buffer first and are never overwritten unread |
| `RunAlgebra.Intersection` | contrib/eggbitset/roaring.c:6916-6992 | intersection of the two lists, canonical |
| `RunAlgebra.AndNot` | contrib/eggbitset/roaring.c:7105-7166 | difference of the two lists, canonical |
| `RunNegation.NegationRange` | contrib/eggbitset/roaring.c:5746-5777 | the values of the list in symmetric difference with `[rangeStart, rangeEnd)`, canonical |
| `RunNegation.NegationRangeInplace` | contrib/eggbitset/roaring.c:5786-5858 | the same in place: in the given buffer exactly when it has a spare slot or membership changes at an end of the range, and then no look-ahead loses an unread run and no write lands past the capacity |
| `RunNegation.TakeBuffered` | contrib/eggbitset/roaring.c:5838-5851 | a step of the in-place scan: reads one run ahead before it writes, and stays within the buffer |
| `RunQueries.Cardinality` | contrib/eggbitset/roaring.h:2465-2476 | the number of values |
| `RunQueries.Rank` | contrib/eggbitset/roaring.c:7420-7435 | the number of values up to and including x |
| `RunQueries.Select` | contrib/eggbitset/roaring.c:7405-7418 | finds the value with a given number of values before it, or counts the container in, also when the count reaches 2^32 |
| `RunQueries.IndexEqualOrLarger` | contrib/eggbitset/roaring.h:2758-2772 | the first run that ends at or after x, or -1 when there is none |
| `ArrayKernels.BinarySearch` | contrib/eggbitset/roaring.h:333-349 | the index of the key, or the insertion point encoded as `-(p + 1)` |
| `ArrayKernels.AdvanceUntil` | contrib/eggbitset/roaring.h:358-401 | the first index after `pos` whose value is not too small |
| `ArrayKernels.UnionUint16` | contrib/eggbitset/roaring.c:1047-1094 | sorted duplicate-free union, also when the output is the buffer of the first operand |
| `ArrayKernels.InplaceUnion` | contrib/eggbitset/roaring.c:6184-6194 | sorted duplicate-free union in the first operand's own buffer, after it has moved right by the length of the second |
| `ArrayKernels.DifferenceUint16` | contrib/eggbitset/roaring.c:1096-1139 | sorted difference, also into the first operand |
| `ArrayKernels.BinarySearch4` | contrib/eggbitset/roaring.c:736-758 | the lower bounds of four targets |
| `ArrayKernels.BinarySearch2` | contrib/eggbitset/roaring.c:768-782 | the lower bounds of two targets |
| `ArrayKernels.IntersectSkewed` | contrib/eggbitset/roaring.c:790-842 | sorted intersection, also when the output is the small or the large input |
| `ArrayKernels.IntersectUint16` | contrib/eggbitset/roaring.c:914-937 | sorted intersection, also into the first operand |
| `ArrayKernels.IntersectInplace` | contrib/eggbitset/roaring.c:3208-3223 | sorted intersection in place, with the 64-fold skew test on either side |
| `SortedArrays.MeetBehind` | contrib/eggbitset/roaring.c:790-842 | the output never gets ahead of the position reached in the large array |
| `ArrayContainers.ArrayContainer.TryAdd` | contrib/eggbitset/roaring.h:1484-1512 | 1, 0 or -1 as the value was added, was there, or finds the array full; the set accordingly |
| `ArrayContainers.ArrayContainer.Remove` | contrib/eggbitset/roaring.h:1520-1531 | old set minus the value; true exactly when it was there |
| `ArrayContainers.ArrayContainer.Contains` | contrib/eggbitset/roaring.h:1534-1563 | true exactly for the values of the array |
| `ArrayContainers.ArrayContainer.CountLess` | contrib/eggbitset/roaring.h:407-412 | the lower bound of the key in a prefix |
| `ArrayContainers.ArrayContainer.CountGreater` | contrib/eggbitset/roaring.h:418-427 | the number of values above the key |
| `ArrayContainers.ArrayContainer.AddRangeNvals` | contrib/eggbitset/roaring.h:1623-1638 | old set plus `[min, max]`, sorted, given the two counts |
| `ArrayContainers.ArrayContainer.Rank` | contrib/eggbitset/roaring.h:1595-1603 | the number of values up to and including x |
| `ArrayContainers.ArrayContainer.Select` | contrib/eggbitset/roaring.h:1443-1454 | finds the value with a given number of values before it, or counts the container in; finds nothing when the count reaches 2^32 |
| `MixedArrays.XorUint16` | contrib/eggbitset/roaring.c:1141-1170 | sorted symmetric difference |
| `MixedArrays.FilterByBitset` | contrib/eggbitset/roaring.c:5198-5225 | the values of the array that the bitset has, or lacks, in place |
| `MixedArrays.ArrayRunAndNot` | contrib/eggbitset/roaring.c:4974-5014 | the values of the array that are in no run |
| `MixedArrays.ArrayRunIntersection` | contrib/eggbitset/roaring.c:5253-5291 | the values of the array that are in a run |
| `MixedArrays.ListRuns` | contrib/eggbitset/roaring.c:4699-4744 | the values of the runs that the bitset lacks, in order |
| `MixedArrays.MeetRuns` | contrib/eggbitset/roaring.c:5305-5326 | the common values in order, in a buffer for the smaller of the two: every store falls into the buffer exactly unless the bitset lies in the runs and a run value lies behind all of it; always when there are no more run values than bitset members |
| `MixedArrays.StoreFits` | contrib/eggbitset/roaring.c:5318-5321 | the store of v, which precedes the test of v, is within the smaller of the two sizes exactly unless all of the bitset has been found before v |
| `MixedArrays.FewValuesFit` | contrib/eggbitset/roaring.c:5308-5311 | no more run values than bitset members: every store is within the buffer |
| `MixedArrays.RunArrayArraySubtract` | contrib/eggbitset/roaring.c:4824-4862 | the values of the runs that the array lacks |
| `Words.BitClear` | contrib/eggbitset/roaring.c:4576-4582 | `w & (w + 1)` clears the ones below the lowest zero and nothing else |
| `Words.BitFill` | contrib/eggbitset/roaring.c:4561-4568 | `w \| (w - 1)` fills the zeros below the lowest one and nothing else |
| `BitsetKernels.SetRange` | contrib/eggbitset/roaring.h:684-697 | sets exactly the bits of `[start, end)` |
| `BitsetKernels.ResetRange` | contrib/eggbitset/roaring.h:778-791 | clears exactly the bits of `[start, end)` |
| `BitsetKernels.FlipRange` | contrib/eggbitset/roaring.h:765-773 | flips exactly the bits of `[start, end)` |
| `BitsetKernels.SetLenrange` | contrib/eggbitset/roaring.h:745-760 | sets exactly the bits of the range although the two-words-at-a-time loop may overwrite the last word for a moment |
| `BitsetKernels.LenrangeCardinality` | contrib/eggbitset/roaring.h:703-720 | counts exactly the bits of the range |
| `BitsetKernels.ComputeCardinality` | contrib/eggbitset/roaring.c:3562-3572 | the number of bits |
| `BitsetLists.SetBit` | contrib/eggbitset/roaring.h:1791-1810 | old set plus the position; the count moves by whether it was missing |
| `BitsetLists.UnsetBit` | contrib/eggbitset/roaring.h:1825-1834 | old set minus the position; the count moves by whether it was there |
| `BitsetLists.SetListWithcard` | contrib/eggbitset/roaring.c:2845-2860 | old set plus the list, and the cardinality kept exact |
| `BitsetLists.ClearList` | contrib/eggbitset/roaring.c:2828-2843 | old set minus the list, and the cardinality kept exact |
| `BitsetLists.FlipListWithcard` | contrib/eggbitset/roaring.c:2881-2898 | symmetric difference with a list without repetitions, and the cardinality kept exact |
| `BitsetLists.ExtractSetbits` | contrib/eggbitset/roaring.c:2703-2717 | writes out all positions in increasing order |
| `BitsetLists.ExtractIntersection` | contrib/eggbitset/roaring.c:2611-2627 | writes out the common positions in increasing order |
| `BitsetOps.Kernel` | contrib/eggbitset/roaring.c:3751-3769 | or, and, xor, andnot of two bitsets and the exact cardinality, into either operand or a third buffer |
| `BitsetOps.KernelNocard` | contrib/eggbitset/roaring.c:3770-3781 | the same without a count |
| `BitsetOps.KernelJustcard` | contrib/eggbitset/roaring.c:3782-3794 | the count alone |
| `BitsetRuns.NumberOfRuns` | contrib/eggbitset/roaring.c:3873-3888 | the number of maximal runs |
| `BitsetRuns.ToRuns` | contrib/eggbitset/roaring.c:4527-4583 | the maximal runs in order, as many as were counted: the allocation is exact |
| `BitsetQueries.Minimum` | contrib/eggbitset/roaring.c:4043-4052 | the smallest member, 65535 for an empty bitset |
| `BitsetQueries.Maximum` | contrib/eggbitset/roaring.c:4055-4064 | the largest member, although word 0 is never looked at |
| `BitsetQueries.Rank` | contrib/eggbitset/roaring.c:4067-4079 | the number of members up to and including x |
| `BitsetQueries.Select` | contrib/eggbitset/roaring.c:4010-4039 | finds the value with a given number of values before it, or counts the container in; finds nothing when the count reaches 2^32 |
| `BitsetQueries.GetRange` | contrib/eggbitset/roaring.h:1849-1872 | true exactly when every position of the range is set |
| `MixedBitsets.ResetRuns` | contrib/eggbitset/roaring.c:4797-4814 | clears exactly the values of the runs |
| `MixedBitsets.FlipRuns` | contrib/eggbitset/roaring.c:6327-6346 | flips exactly the values of the runs |
| `MixedBitsets.KeepRuns` | contrib/eggbitset/roaring.c:4718-4743 | gaps reset and runs kept or flipped, one after the other: run and bitset, or run minus bitset |
| `MixedRuns.ArrayRunUnion` | contrib/eggbitset/roaring.c:6049-6091 | union as a canonical run list |
| `MixedRuns.ArrayRunInplaceUnion` | contrib/eggbitset/roaring.c:6093-6143 | the same in the buffer of the run list |
| `MixedRuns.ArrayRunLazyXor` | contrib/eggbitset/roaring.c:6412-6440 | symmetric difference as a canonical run list |
| `MixedRuns.RunArrayScan` | contrib/eggbitset/roaring.c:4868-4955 | difference as a canonical run list, for few values |
| `Containers.BitsetFromArray` | contrib/eggbitset/roaring.c:4305-4310 | same set, exact cardinality |
| `Containers.BitsetFromRun` | contrib/eggbitset/roaring.c:4312-4321 | same set, exact cardinality |
| `Containers.ArrayFromBitset` | contrib/eggbitset/roaring.c:4338-4348 | same set, sorted |
| `Containers.ArrayFromRun` | contrib/eggbitset/roaring.c:4323-4336 | same set, sorted |
| `Containers.ToEfficient` | contrib/eggbitset/roaring.c:4420-4466 | same set; stays a run list exactly when neither other form is smaller; a bitset only above 4096 values |
| `ContainerUpdates.Contains` | contrib/eggbitset/roaring.h:4184-4203 | true exactly for the values of the container |
| `ContainerUpdates.Add` | contrib/eggbitset/roaring.h:4109-4140 | old set plus the value, invariants kept; a new pointer only when the value was missing |
| `ContainerUpdates.Remove` | contrib/eggbitset/roaring.h:4149-4179 | old set minus the value, invariants kept; a new pointer exactly when a bitset falls to 4096 values |
| `ContainerUpdates.RangeOfOnes` | contrib/eggbitset/roaring.h:3907-3919 | the set `[start, end)` |
| `ContainerUpdates.AddRange` | contrib/eggbitset/roaring.h:5851-5918 | old set plus `[min, max]`, invariants kept through every change of representation |
| `ContainerUpdates.RemoveRange` | contrib/eggbitset/roaring.h:5930-5995 | old set minus `[min, max]`, no container exactly when nothing is left; a bitset stays one exactly down to 4096 values, a run list becomes one exactly when it would take more than 8192 bytes |
| `ContainerUpdates.RepairAfterLazy` | contrib/eggbitset/roaring.h:3952-3982 | same set, all invariants restored |
| `ContainerQueries.Cardinality` | contrib/eggbitset/roaring.h:3837-3856 | the number of values |
| `ContainerQueries.IsFull` | contrib/eggbitset/roaring.h:3863-3880 | true exactly for all 65536 values |
| `ContainerQueries.Minimum` | contrib/eggbitset/roaring.h:5806-5822 | the smallest value |
| `ContainerQueries.Maximum` | contrib/eggbitset/roaring.h:5788-5804 | the largest value |
| `ContainerQueries.Rank` | contrib/eggbitset/roaring.h:5825-5841 | the number of values up to and including x |
| `ContainerQueries.Select` | contrib/eggbitset/roaring.h:5766-5786 | finds the value with a given number of values before it, or counts the container in; when the count reaches 2^32, only a run list finds it |
| `ContainerQueries.Equals` | contrib/eggbitset/roaring.h:4241-4286 | for all nine pairs of representations, true exactly when the sets are equal |
| `ContainerQueries.RunEqualsBitset` | contrib/eggbitset/roaring.c:5161-5187 | true exactly when the sets are equal, from the cardinalities and a test of every run |
| `ContainerQueries.ArrayEqualBitset` | contrib/eggbitset/roaring.c:5113-5137 | true exactly when the sets are equal, bit by bit |
| `ContainerQueries.RunEqualsArray` | contrib/eggbitset/roaring.c:5139-5159 | true exactly when the sets are equal, though only the ends of each run are compared |
| `ContainerOps.Or` | contrib/eggbitset/roaring.h:4847-4947 | union, for all nine pairs, invariants kept |
| `ContainerOps.And` | contrib/eggbitset/roaring.h:4535-4618 | says whether every store stayed within its buffer: always but for a run list R of at most 4096 values and a bitset B, and then exactly unless B lies in R and a value of R lies above all of B; with room, the intersection, for all nine pairs, invariants kept |
| `ContainerOps.ExclusiveOr` | contrib/eggbitset/roaring.h:5266-5345 | symmetric difference, for all nine pairs, invariants kept |
| `ContainerOps.AndNot` | contrib/eggbitset/roaring.h:5499-5575 | difference, for all nine pairs, invariants kept |
| `LazyContainers.LazyOr` | contrib/eggbitset/roaring.h:4734-4836 | union, for all nine pairs; a bitset's cardinality is exact or marked unknown |
| `LazyContainers.LazyIor` | contrib/eggbitset/roaring.h:4961-5073 | the same in place |
| `LazyContainers.IsFull` | contrib/eggbitset/roaring.h:3863-3880 | never true of a container that is not full, though the cardinality may be unknown |
| `RoaringArrays.RoaringArray.ExtendArray` | contrib/eggbitset/roaring.c:10575-10588 | room for k slots more, contents kept, a new capacity at most 65536 |
| `RoaringArrays.RoaringArray.GetIndex` | contrib/eggbitset/roaring.h:6095-6098 | index of the key, or its insertion point |
| `RoaringArrays.RoaringArray.InsertAt` | contrib/eggbitset/roaring.c:10710-10724 | one slot inserted, the others in order |
| `RoaringArrays.RoaringArray.RemoveAt` | contrib/eggbitset/roaring.c:10736-10744 | one slot taken out, the others in order |
| `RoaringArrays.RoaringArray.ShiftTailRight` | contrib/eggbitset/roaring.c:10774-10787 | slots before and behind the gap keep their contents |
| `RoaringArrays.RoaringArray.CloseGap` | contrib/eggbitset/roaring.c:10774-10787 | the slots of the gap go, the others stay in order |
| `Slots.WholeMembers` | contrib/eggbitset/roaring.h:6617-6632 | a value is in a bitmap exactly when its low 16 bits are in a container whose key is its high 16 bits |
| `Slots.WholeOp` | contrib/eggbitset/roaring.c:8213-8286 | an operation that holds under every key holds for the whole 32-bit set |
| `SlotMerges.CombinedStep` | contrib/eggbitset/roaring.c:8371-8447 | one step of the walk over two bitmaps: the slots output so far are the operation on the slots passed, keys increasing, none empty |
| `Bitmaps.Contains` | contrib/eggbitset/roaring.h:6617-6631 | true exactly for the values of the bitmap |
| `Bitmaps.AddChecked` | contrib/eggbitset/roaring.c:7858-7896 | old set plus the value, layout kept; true exactly when it was missing |
| `Bitmaps.RemoveChecked` | contrib/eggbitset/roaring.c:7923-7958 | old set minus the value, an emptied container dropped; true exactly when it was there |
| `Bitmaps.SourceBehind` | contrib/eggbitset/roaring.c:7637-7662 | `src <= dst` in the backward pass: the keys of the old slots in the range are distinct |
| `Bitmaps.PassStep` | contrib/eggbitset/roaring.c:7639-7662 | a step of the backward pass writes to a slot that no unread container occupies |
| `Bitmaps.BackwardPass` | contrib/eggbitset/roaring.c:7637-7662 | the pass ends even when `min_key` is 0 and the key counter wraps around, with one slot for every key of the range |
| `Bitmaps.AddRangeClosed` | contrib/eggbitset/roaring.c:7615-7663 | old set plus `[min, max]`, layout kept |
| `Bitmaps.ForwardPass` | contrib/eggbitset/roaring.c:7665-7700 | the compaction writes behind what it reads and leaves no empty container |
| `Bitmaps.RemoveRangeClosed` | contrib/eggbitset/roaring.c:7665-7700 | old set minus `[min, max]`, layout kept; every container is as it was or as `container_remove_range` left it |
| `BitmapOps.OrXorInplace` | contrib/eggbitset/roaring.c:8213-8447 | for distinct bitmaps, union or symmetric difference on the first, the second left as it is |
| `BitmapOps.WalkStep` | contrib/eggbitset/roaring.c:8371-8447 | one turn of the loop, with an insertion or a removal in the middle of the slots still to be read |
| `BitmapOps.AndInplace` | contrib/eggbitset/roaring.c:8076-8129 | for distinct bitmaps: right exactly when the intersections under all common keys stay within their buffers, which they do when every run list that meets a bitset has more than 4096 values or no more than the bitset; then the intersection on the first, the second left as it is |
| `Overruns.OverrunNeedsHazard` | contrib/eggbitset/roaring.c:8076-8129 | when an intersection of two bitmaps leaves a buffer, their sets show it: under some key one part, of at least 2048 values, lies in the other, of at most 4096 and with a value behind it |
| `Overruns.HazardIsExact` | contrib/eggbitset/roaring.c:8076-8129 | the sets show exactly whether some representation of them overruns: every hazard has bitmaps in order that do |
| `Overruns.OverrunExample` | contrib/eggbitset/roaring.c:5308-5321 | the even values below 4096 as a bitset and all values below 4096 as a run, both in order: they do not fit |
| `Overruns.ReachOverrun` | contrib/eggbitset/roaring.c:5308-5321 | range insertions and removals on empty bitmaps lead to that intersection |
| `BitmapOps.AndNotInplace` | contrib/eggbitset/roaring.c:8517-8601 | for distinct bitmaps, difference on the first, the second left as it is |
| `BitmapEquality.EqualSets` | contrib/eggbitset/roaring.c:9262-9283 | two layouts stand for the same set exactly when they have the same keys and equal containers under them |
| `BitmapEquality.Equals` | contrib/eggbitset/roaring.c:9262-9283 | true exactly when the two sets are equal |
| `BitmapQueries.Cardinality` | contrib/eggbitset/roaring.c:8603-8609 | the number of values |
| `BitmapQueries.Rank` | contrib/eggbitset/roaring.c:9875-9893 | the number of members up to and including x |
| `BitmapQueries.Select` | contrib/eggbitset/roaring.c:9928-9950 | found exactly when there are enough values and the 32-bit rank does not wrap, and then the one with that many before it; it wraps exactly when all 2^32 values are set, the last container is no run list, and the value lies in it |
| `BitmapQueries.RankWrapsExample` | contrib/eggbitset/roaring.c:9928-9950 | the set of all values in a layout that is in order, whose largest value is not found |
| `BitmapQueries.RankSelectInverse` | contrib/eggbitset/roaring.c:9875-9950 | the member selected by k has rank k + 1, and is the only member of that rank |
| `BitmapQueries.Minimum` | contrib/eggbitset/roaring.c:9899-9908 | the smallest value, 2^32 - 1 for an empty bitmap |
| `BitmapQueries.Maximum` | contrib/eggbitset/roaring.c:9914-9926 | the largest value, 0 for an empty bitmap |
| `BitmapQueries.RangeCardinality` | contrib/eggbitset/roaring.c:8611-8664 | the number of members in `[rangeStart, rangeEnd)`, for ends of any size |
| `Ranks.SelectedRank` | contrib/eggbitset/roaring.c:9875-9950 | x is selected by k exactly when it is a member of rank k + 1 |
| `Ranks.RangeCount` | contrib/eggbitset/roaring.c:8611-8664 | the members of a range are the difference of the ranks at its ends |
| `Iterators.Iterator.InitFirst` | contrib/eggbitset/roaring.c:8987-8992 | points at the smallest value, or has none exactly when the set is empty |
| `Iterators.Iterator.InitLast` | contrib/eggbitset/roaring.c:8994-8999 | points at the largest value, or has none exactly when the set is empty |
| `Iterators.Iterator.MoveEqualOrLarger` | contrib/eggbitset/roaring.c:9017-9036 | points at the least value not below the target, or says there is none |
| `Iterators.Iterator.Advance` | contrib/eggbitset/roaring.c:9039-9106 | goes to the next larger value from wherever it stands, or says there is none and stands behind the last container; at the largest 32-bit value in a run it then stays where it is |
| `Iterators.Iterator.Previous` | contrib/eggbitset/roaring.c:9108-9169 | goes to the next smaller value from wherever it stands, or says there is none and stands before the first container; at 0 in a run it then stays where it is |
| `Iterators.AscentVisitsAll` | contrib/eggbitset/roaring.c:9017-9106 | a list that starts at the least member from some point on and goes to the next member each time, to the end, holds every member from there on exactly once, in increasing order |
| `Iterators.DescentVisitsAll` | contrib/eggbitset/roaring.c:9108-9169 | the same downwards |
| `Iterators.ThereAndBack` | contrib/eggbitset/roaring.c:9039-9169 | next then previous, or previous then next, returns to the same value when both succeed |
| `EggIterators.InitFirst` | contrib/eggbitset/eggbitset.c:793-808 | the smallest value; 0 and false exactly when the set is empty |
| `EggIterators.InitLast` | contrib/eggbitset/eggbitset.c:824-839 | the largest value; 0 and false exactly when the set is empty |
| `EggIterators.InitAt` | contrib/eggbitset/eggbitset.c:856-878 | the least value not below the target; 0 and false when there is none |
| `EggIterators.Next` | contrib/eggbitset/eggbitset.c:893-911 | the next larger value; 0 and false when there is none, wherever the iterator stood, and where it stands then |
| `EggIterators.Previous` | contrib/eggbitset/eggbitset.c:926-944 | the next smaller value; 0 and false when there is none, wherever the iterator stood, and where it stands then |
| `EggIterators.NextThenPrevious` | contrib/eggbitset/eggbitset.c:893-944 | a step back after a step forward, successful or not, returns to the value exactly unless it is the largest 32-bit value in a run |
| `EggIterators.PreviousThenNext` | contrib/eggbitset/eggbitset.c:893-944 | a step forward after a step back, successful or not, returns to the value exactly unless it is 0 in a run |
| `EggIterators.TopIsLeft` | contrib/eggbitset/roaring.c:9039-9169 | the two largest values, added as a range: from the last one forward and back leads to the one before it |
| `EggIterators.BottomIsLeft` | contrib/eggbitset/roaring.c:9039-9169 | the values 0 and 1, added as a range: from 0 back and forward leads to 1 |
| `EggIterators.VisitAll` | src/libsysprof/sysprof-document.c:781-795 | the loop from the first value on visits every value exactly once, in increasing order, and ends with the value 0 |
| `EggIterators.VisitFrom` | src/libsysprof/sysprof-document.c:2161-2177 | the loop from a target on visits every value from there on exactly once, in increasing order, and ends with the value 0 |
| `EggIterators.VisitAllBack` | contrib/eggbitset/eggbitset.c:824-944 | the loop from the last value back visits every value exactly once, in decreasing order, and ends with the value 0 |
| `LazyBitmaps.LazyOr` | contrib/eggbitset/roaring.c:9517-9613 | a new bitmap with the union; the operands are only read |
| `LazyBitmaps.LazyOrInplace` | contrib/eggbitset/roaring.c:9615-9700 | union on the first operand, the second left as it is |
| `LazyBitmaps.LazyOrFromLazyInputs` | contrib/eggbitset/roaring.c:11324-11417 | the union in a new bitmap, or one of the operands itself when the other is empty |
| `LazyBitmaps.MergeStep` | contrib/eggbitset/roaring.c:11324-11417 | one turn of the loop: the answer is the union of the slots passed, keys increasing |
| `LazyBitmaps.RepairAfterLazy` | contrib/eggbitset/roaring.c:9857-9867 | same set, exact cardinalities, all invariants restored |
| `PriorityQueues.Queue.Add` | contrib/eggbitset/roaring.c:11253-11264 | heap order kept, one element more and no other change of the multiset |
| `PriorityQueues.Queue.PercolateDown` | contrib/eggbitset/roaring.c:11272-11293 | heap order from one index further up, multiset conserved |
| `PriorityQueues.Queue.Poll` | contrib/eggbitset/roaring.c:11312-11321 | returns a smallest element and removes just that one; heap order kept |
| `PriorityQueues.CreateQueue` | contrib/eggbitset/roaring.c:11295-11310 | one element for every input, sized by its serialized size, in heap order |
| `PriorityQueues.RootIsSmallest` | contrib/eggbitset/roaring.c:11312-11321 | the root of a heap is no larger than any other element |
| `UnionHeap.Join` | contrib/eggbitset/roaring.c:11436-11464 | each of the four ways to join two bitmaps gives their union in a temporary, and writes to temporaries only |
| `UnionHeap.Round` | contrib/eggbitset/roaring.c:11434-11465 | the union of the queued bitmaps stays the same and the queue has one element less |
| `UnionHeap.OrManyHeap` | contrib/eggbitset/roaring.c:11425-11472 | a value is in the repaired union exactly when it is in one of the inputs, none of which changes |
| `Bytes.U32Back` | contrib/eggbitset/roaring.c:10916-10975 | a 32-bit integer reads back from its little-endian bytes |
| `Bytes.WordBack` | contrib/eggbitset/roaring.c:10916-10975 | a 64-bit word reads back from its little-endian bytes |
| `Bytes.StandsPiece` | contrib/eggbitset/roaring.c:10971-10973 | each piece of a list stands behind the bytes of the pieces before it |
| `Encoding.FlagsTell` | contrib/eggbitset/roaring.c:10924-10934 | binary digit k % 8 of flag byte k / 8 is 1 exactly when k is the number of a container and that is a run list |
| `Encoding.EncodeSize` | contrib/eggbitset/roaring.c:10907-10914 | the image has exactly the size computed beforehand |
| `Encoding.EncodeIsImage` | contrib/eggbitset/roaring.c:10916-10975 | what is written is an image as `Format` describes it, in integers and constants of its own: cookie 12347 with the size less one or 12346 with the size, run flags, key before cardinality less one, offsets unless there are runs and fewer than four containers, and the bytes of every body |
| `Serialization.PortableSizeInBytes` | contrib/eggbitset/roaring.c:10907-10914 | the header and the sizes of all containers |
| `Serialization.Serialize` | contrib/eggbitset/roaring.c:10916-10975 | writes an image as `Format` describes it, starting with 3B 30 when a container is a run list and 3A 30 otherwise, and returns its length |
| `Deserialization.Deserialize` | contrib/eggbitset/roaring.c:11068-11230 | on every buffer, succeeds exactly when some slots can be read from it in the terms of `Format`, and then gives these slots and their length; never reads past the buffer |
| `Deserialization.DecodeMeans` | contrib/eggbitset/roaring.c:11068-11230 | for all buffers and slots: the reader gives the slots back exactly when the buffer says so, number by number: the kind of a container by run digit and cardinality, values, runs, and bit i of word j as digit i % 8 of byte 8j + i / 8 |
| `Deserialization.DeserializeSize` | contrib/eggbitset/roaring.c:10984-11062 | the length that the other reader consumes, within the buffer; 0 when that fails, unless a size of 2^31 + m, m < 2^30, wraps around to sections that fit the buffer, and then 8 + 8m, less 2^32 from m = 2^29 on |
| `Deserialization.MeasureWritten` | contrib/eggbitset/roaring.c:10984-11062 | measuring what was written, followed by any bytes, gives the length that the writer gave, when every bitset holds at least 4096 values |
| `Deserialization.MeasuredLength` | contrib/eggbitset/roaring.c:10984-11062 | of such an image the reader consumes as many bytes as it has, also where it takes a bitset of 4096 values for an array |
| `Deserialization.MisreadExample` | contrib/eggbitset/roaring.c:10984-11062 | the 8 bytes with the cookie and the size -2^31: a length of 8 for one reader, a failure for the other |
| `Deserialization.RoundTrip` | contrib/eggbitset/roaring.c:10916-11230 | reading an image gives the bitmap back, and its length, exactly when every bitset holds more than 4096 values |
| `Deserialization.SmallBitsetFails` | contrib/eggbitset/roaring.c:11145-11149 | a bitset of at most 4096 values does not read back |
| `Deserialization.RemovalLeavesSmallBitset` | contrib/eggbitset/roaring.h:5930-5952 | a range removal that leaves 4096 values of a bitset leaves a bitset, which does not read back |
| `Deserialization.ReachSmallBitset` | contrib/eggbitset/roaring.h:5930-5952 | a full array, one value more, and its removal by a range lead there |
| `Deserialization.OffsetsExact` | contrib/eggbitset/roaring.c:10960-10970 | entry k of the offset table is the start of container k, modulo 2^32, and its bytes stand there |
| `Images.EmptyImage` | contrib/eggbitset/roaring.c:10940-10950 | the image of the empty bitmap is 3A 30 00 00 00 00 00 00, no other bytes, and reads as no containers |
| `Images.PairImage` | contrib/eggbitset/roaring.c:10919-10939 | the image of the values 0 and 1 as a run is 3B 30 00 00 01 00 00 01 00 01 00 00 00 01 00, no other bytes, and reads as that run |
| `Images.FiveImage` | contrib/eggbitset/roaring.c:10940-10973 | the image of the value 5 in an array is 3A 30 00 00 01 00 00 00 00 00 00 00 10 00 00 00 05 00, no other bytes, and reads as that array |
| `Images.EmptyWritten` | contrib/eggbitset/roaring.c:10916-10975 | a new bitmap is written as these 8 bytes |
| `Images.EmptyRead` | contrib/eggbitset/roaring.c:11068-11230 | these 8 bytes read as an empty bitmap, and measure 8 |
| `Images.PairWritten` | contrib/eggbitset/roaring.c:10916-10975 | 0 and 1, added as a range to a new bitmap, are written as these 15 bytes |
| `Images.PairRead` | contrib/eggbitset/roaring.c:11068-11230 | these 15 bytes read as one run under key 0, and measure 15 |
| `ByteDigits.WordDigit` | contrib/eggbitset/roaring.c:3898-3902 | bit 8q + r of a word is digit r of byte q, the least significant byte first |
| `CopyOnWrite.Store.ShareSlot` | contrib/eggbitset/roaring.c:4215-4244 | one more holder: the counter goes up, or a shared container with two holders takes the place of the plain one |
| `CopyOnWrite.Store.Unshare` | contrib/eggbitset/roaring.h:6263-6268 | the slot owns its container alone, and no bitmap looks different |
| `CopyOnWrite.Store.Copy` | contrib/eggbitset/roaring.c:7799-7813 | hands the flag on; with the flag a new bitmap that shares, without it one with containers of its own. Right exactly when the flag is set or nothing is shared |
| `CopyOnWrite.Store.Clone` | contrib/eggbitset/roaring.c:10469-10508 | without the flag, the typecodes are copied and the containers unwrapped: the invariant holds afterwards exactly when no slot was shared |
| `CopyOnWrite.CopyAfterClearing` | contrib/eggbitset/roaring.c:10469-10508 | flag set, value added, copy, flag cleared, copy: the invariant is lost |
| `CopyOnWrite.Store.AddChecked` | contrib/eggbitset/roaring.c:7858-7896 | the set of this bitmap grows by the value, no other set changes; true exactly when it was missing; the sharing under the key of the value ends, and no other |
| `CopyOnWrite.Store.RemoveChecked` | contrib/eggbitset/roaring.c:7923-7958 | the set of this bitmap loses the value, no other set changes; true exactly when it was there; the sharing under the key of the value ends, and no other |
| `CopyOnWrite.Store.Free` | contrib/eggbitset/roaring.c:7821-7826 | the bitmap is gone, no other set changes, and its references are given up |
| `CopyOnWrite.ChangeIsLocal` | contrib/eggbitset/roaring.h:6263-6268 | a change that touches no cell held elsewhere is seen in one bitmap alone |
| `CopyOnWrite.Store.CounterIsExact` | contrib/eggbitset/roaring.c:4215-4296 | the counter of a shared container is the number of live slots that point to it |
| `CopyOnWrite.Store.NothingLeaks` | contrib/eggbitset/roaring.c:4288-4296 | when no bitmap is left, no container is |
| `CopyOnWrite.Store.Run` | contrib/eggbitset/roaring.c:4215-4296 | every history of creations, copies, flag changes, additions, removals and frees is a history of plain sets up to the first copy without the flag of a bitmap that shares a container; which command that is follows from the commands and the sets |
| `EggBitsets.EggBitset.Copy` | contrib/eggbitset/eggbitset.c:315-327 | a bitset of its own with the same values |
| `EggBitsets.EggBitset.Equals` | contrib/eggbitset/eggbitset.c:142-152 | true exactly when the values are the same |
| `EggBitsets.EggBitset.GetNth` | contrib/eggbitset/eggbitset.c:251-260 | the value with nth values before it, 0 when there is none or the 32-bit rank wraps |
| `EggBitsets.EggBitset.GetSizeInRange` | contrib/eggbitset/eggbitset.c:229-237 | the number of values from first to last, 0 when last is smaller |
| `EggBitsets.EggBitset.AddRange` | contrib/eggbitset/eggbitset.c:391-404 | old values plus the range, which may end at the largest value; nothing happens when it would end behind it |
| `EggBitsets.EggBitset.RemoveRange` | contrib/eggbitset/eggbitset.c:416-429 | old values minus the range, which may end at the largest value; nothing happens when it would end behind it |
| `EggBitsets.EggBitset.AddRectangle` | contrib/eggbitset/eggbitset.c:483-500 | for every rectangle: old values plus the rows that start at the 32-bit sums, when the 32-bit guards accept it; nothing otherwise, and so when start + height * stride leaves 32 bits and height * stride does not |
| `EggBitsets.EggBitset.RemoveRectangle` | contrib/eggbitset/eggbitset.c:514-531 | for every rectangle: old values minus the rows that start at the 32-bit sums, when the 32-bit guards accept it; nothing otherwise, and so when start + height * stride leaves 32 bits and height * stride does not |
| `Splices.WrappedRowIs` | contrib/eggbitset/eggbitset.c:498-499 | row i of the loop starts at the 32-bit sum, and is passed over exactly when it would end beyond 32 bits |
| `Splices.RowsDoNotWrap` | contrib/eggbitset/eggbitset.c:495-499 | the rows of the loop are the rows that are meant exactly when the last one ends at the largest value at the latest |
| `Splices.AcceptedRectangle` | contrib/eggbitset/eggbitset.c:491-530 | a rectangle that one of the guards accepts is drawn as the rectangle of the grid exactly when it is empty, or no row runs over the edge of the grid and the last row ends at the largest value at the latest |
| `Splices.GridRectangle` | contrib/eggbitset/eggbitset.c:491-499 | a rectangle inside the grid passes both guards, and the loop goes through its rows |
| `Splices.WrongRectangle` | contrib/eggbitset/eggbitset.c:492-499 | a rectangle that both guards accept because `height * stride` wraps around, and whose last row wraps to a value outside it |
| `Splices.WideRectangle` | contrib/eggbitset/eggbitset.c:492 | accepted for insertion because the sum of column and width wraps to 0: the row leaves the rectangle |
| `Splices.BrokenRow` | contrib/eggbitset/eggbitset.c:523 | accepted for removal without any wrap: half of the row lies in the next row of the grid |
| `Splices.RowsAreARectangle` | contrib/eggbitset/eggbitset.c:471-500 | the rows are the cells of a rectangle in the grid with the given stride |
| `EggBitsets.EggBitset.Combine` | contrib/eggbitset/eggbitset.c:546-636 | union, intersection, subtraction, symmetric difference, also of a bitset with itself; only an intersection that leaves a buffer is not right, and then, under some key, a part P of one with 2048 <= \|P\| < \|Q\| <= 4096 lies in the part Q of the other, below a value of Q |
| `EggBitsets.EggBitset.ShiftLeft` | contrib/eggbitset/eggbitset.c:651-675 | y is a value exactly when y + amount was one: values below the amount are discarded |
| `EggBitsets.EggBitset.ShiftRight` | contrib/eggbitset/eggbitset.c:687-711 | y is a 32-bit value exactly when y - amount was one: values that leave 32 bits are discarded |
| `EggBitsets.EggBitset.Splice` | contrib/eggbitset/eggbitset.c:732-757 | when both sums stay below 2^32: values before the position stay, the removed places go, the rest moves behind the added places; otherwise nothing changes |
| `Splices.SpliceInAndOut` | contrib/eggbitset/eggbitset.c:732-757 | splicing n places in and out again is the identity exactly when no value overflows |
| `Splices.SpliceOutAndIn` | contrib/eggbitset/eggbitset.c:732-757 | splicing n places out and in again loses what stood there and nothing else |
| `Splices.SpliceInTwoSteps` | contrib/eggbitset/eggbitset.c:713-757 | a splice is a cut followed by a paste |
| `Splices.SpliceMirrorsList` | contrib/eggbitset/eggbitset.c:713-757 | a splice of the marked positions of a list mirrors the change of the list |
| `ListMirrors.ItemsReplaced` | contrib/eggbitset/eggbitset.c:713-757 | a bitset that holds the marked positions of a list holds those of the changed list after the splice |
| `ListMirrors.ItemsChanged` | src/sysprof/sysprof-normalized-series.c:165-182 | the set of missing values after any change of the list: the marks move with their items, and every new item is missing |
| `ListMirrors.InAndOut` | contrib/eggbitset/eggbitset.c:732-757 | places spliced in and out again: the old values are back exactly when none overflows, or when the first splice is refused |
| `ListMirrors.OutAndIn` | contrib/eggbitset/eggbitset.c:732-757 | places spliced out and in again: the values that stood there are lost, and no others; nothing is lost when the first splice is refused |
| `Histories.Run` | contrib/eggbitset/eggbitset.c:270-757 | every sequence of mutators on any number of bitsets is a sequence of plain set operations, and keeps every invariant, up to an intersection of two sets with parts P and Q as in `EggBitsets.EggBitset.Combine` |
| `Histories.Do` | contrib/eggbitset/eggbitset.c:270-757 | one command on one of many bitsets: right exactly when it has room, and no other bitset changes |
| `Histories.FromEmpty` | contrib/eggbitset/eggbitset.c:270-757 | the same from empty bitsets, with the invariant written out |
| `Histories.LayoutIsInOrder` | contrib/eggbitset/roaring.h:5851-5995 | the invariant in full: keys increasing, no empty container, arrays of at most 4096 sorted values, canonical runs, bitsets with exact cardinality and at least 2048 values |

## Left out

- EggBitsets.EggBitset.AddRectangle: asks for a stride above 0, since the code divides by it.
- Deserialization.DeserializeSize: asks for a buffer of less than 2^63 bytes, which is more than an object can have.
- Deserialization.MeasureWritten: asks for at least 4096 values in every bitset. A smaller one is taken for an array, and what follows it for something else, so that no condition on the bitmap alone says what is measured.
- Histories.Run: tells from the sets where an intersection may leave its buffer, which is exactly where some representation of the two sets does (`Overruns.HazardIsExact`); whether the representations at hand do is the exact condition of `Histories.Do`.
- Histories.FromEmpty: the same.
- Containers of a bitmap are values between operations: kernels update buffers in place, but who owns a container's memory is modelled in `CopyOnWrite` alone, where the container of a shared cell is part of the cell.
- The other bitmap operations run with the copy-on-write flag off.
- The SSE, AVX, NEON and assembly variants; the scalar code is modelled.
- Allocation failure, alignment, shrinking, and memory statistics. The spare capacity of an array buffer is left open where the code looks at it.
- `container_is_subset` and the subset tests on bitmaps, which rest on a bound on bitset sizes that the other code does not keep.
- The decision of `convert_run_optimize` whether to convert, and its array case; the conversion of a bitset to runs is modelled.
- `convert_to_bitset_or_array_container`, whose 16-bit loop counter never passes a run that ends at 65535 (`contrib/eggbitset/roaring.c:4386-4398`).
- The operations that build a third bitmap from two, lazy symmetric difference, flips of whole bitmaps, bulk additions and removals, conversions to arrays, intersection tests and statistics: they repeat what the in-place operations do.
- The frozen format, and the serializers of single containers that are not on the portable path; a big-endian host.
- Reference counts, boxed types, thin getters, printing.
