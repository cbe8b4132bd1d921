/**
 Copy-on-write: bitmaps that share containers through counters. The store below is the heap of all bitmaps, each with
 its flag; its meaning is a list of plain sets, in which a copy is a copy.
 */
module CopyOnWrite {
  import opened IntSets
  import opened SortedArrays
  import opened ArrayKernels
  import opened Containers
  import opened ContainerUpdates
  import opened Slots
  import BitmapEquality
  import Bitmaps
  import ContainerQueries

  /** What an address holds: a container of one slot, or a `shared_container_t` with its container. */
  datatype Cell = Plain(c: Container) | Shared(c: Container, counter: nat)

  /** A key, a typecode that says whether the pointer is to a shared container, and the pointer. */
  datatype Slot = Slot(key: u16, shared: bool, at: nat)

  datatype Bitmap = Freed | Live(slots: seq<Slot>)

  /** What a bitmap looks like through its pointers. */
  datatype View = Gone | View(keys: seq<u16>, cs: seq<Container>)

  function Keys(slots: seq<Slot>): (keys: seq<u16>)
    ensures |keys| == |slots|
  {
    seq(|slots|, k requires 0 <= k < |slots| => slots[k].key)
  }

  function Addresses(slots: seq<Slot>): (at: seq<nat>)
    ensures |at| == |slots|
  {
    seq(|slots|, k requires 0 <= k < |slots| => slots[k].at)
  }

  function Content(cells: map<nat, Cell>, a: nat): Container {
    if a in cells then cells[a].c else ArrayC([])
  }

  function Contents(cells: map<nat, Cell>, slots: seq<Slot>): (cs: seq<Container>)
    ensures |cs| == |slots|
  {
    seq(|slots|, k requires 0 <= k < |slots| => Content(cells, slots[k].at))
  }

  function Held(b: Bitmap): multiset<nat> {
    match b
    case Freed => multiset{}
    case Live(slots) => multiset(Addresses(slots))
  }

  /** Every pointer of every live slot. */
  function Refs(bitmaps: seq<Bitmap>): multiset<nat> {
    if bitmaps == [] then multiset{} else Refs(bitmaps[..|bitmaps| - 1]) + Held(bitmaps[|bitmaps| - 1])
  }

  /** Nothing dangles, nothing leaks, and the counters count: the one meaning of a counter. */
  ghost predicate Counted(cells: map<nat, Cell>, refs: multiset<nat>) {
    && (forall a :: a in cells <==> a in refs)
    && (forall a :: a in cells && cells[a].Plain? ==> refs[a] == 1)
    && (forall a :: a in cells && cells[a].Shared? ==> refs[a] == cells[a].counter)
  }

  /** The typecodes tell the truth, and the bitmap behind the pointers satisfies its invariant. */
  ghost predicate Fine(cells: map<nat, Cell>, slots: seq<Slot>) {
    && Layout(Keys(slots), Contents(cells, slots))
    && forall k :: 0 <= k < |slots| ==> slots[k].at in cells && (slots[k].shared <==> cells[slots[k].at].Shared?)
  }

  /** Some slot points to a shared container. */
  predicate Sharing(b: Bitmap) {
    b.Live? && exists k :: 0 <= k < |b.slots| && b.slots[k].shared
  }

  /** The keys under which a bitmap points to shared containers. */
  ghost function SharedIn(b: Bitmap): set<int> {
    match b
    case Freed => {}
    case Live(slots) => set k | 0 <= k < |slots| && slots[k].shared :: slots[k].key as int
  }

  lemma SharedInSome(b: Bitmap)
    ensures Sharing(b) <==> SharedIn(b) != {}
  {
    if Sharing(b) {
      var k :| 0 <= k < |b.slots| && b.slots[k].shared;
      assert b.slots[k].key as int in SharedIn(b);
    }
  }

  /** Bitmap `i` shares nothing under `x` any more; nothing else has changed in what is shared. */
  ghost predicate Unshares(before: seq<Bitmap>, after: seq<Bitmap>, i: nat, x: int) {
    && |before| == |after|
    && forall j :: 0 <= j < |after| ==>
      SharedIn(after[j]) == if j == i then SharedIn(before[j]) - {x} else SharedIn(before[j])
  }

  lemma UnsharesTwice(bs1: seq<Bitmap>, bs2: seq<Bitmap>, bs3: seq<Bitmap>, i: nat, x: int)
    requires Unshares(bs1, bs2, i, x) && Unshares(bs2, bs3, i, x)
    ensures Unshares(bs1, bs3, i, x)
  {
    hide SharedIn;
  }

  /** A slot that has its container to itself afterwards. */
  lemma PutShares(bitmaps: seq<Bitmap>, i: nat, k: nat, s: Slot)
    requires i < |bitmaps| && bitmaps[i].Live? && k < |bitmaps[i].slots| && Sorted(Keys(bitmaps[i].slots))
    requires s.key == bitmaps[i].slots[k].key && !s.shared
    ensures Unshares(bitmaps, bitmaps[i := Live(bitmaps[i].slots[k := s])], i, s.key)
  {
    var slots := bitmaps[i].slots;
    var p, q := SharedIn(Live(slots[k := s])), SharedIn(Live(slots));
    forall n | 0 <= n < |slots| && n != k ensures slots[n].key != s.key { assert Keys(slots)[n] != Keys(slots)[k]; }
    forall x ensures x in p <==> x in q && x != s.key {
      if x in q && x != s.key {
        var n :| 0 <= n < |slots| && slots[n].shared && slots[n].key == x;
        assert slots[k := s][n] == slots[n];
      }
    }
    assert p == q - {s.key as int};
  }

  lemma DropShares(bitmaps: seq<Bitmap>, i: nat, k: nat)
    requires i < |bitmaps| && bitmaps[i].Live? && k < |bitmaps[i].slots| && Sorted(Keys(bitmaps[i].slots))
    ensures Unshares(bitmaps, bitmaps[i := Live(Without(bitmaps[i].slots, k))], i, bitmaps[i].slots[k].key)
  {
    var slots := bitmaps[i].slots;
    var t := Without(slots, k);
    var p, q, key := SharedIn(Live(t)), SharedIn(Live(slots)), slots[k].key;
    forall n | 0 <= n < |slots| && n != k ensures slots[n].key != key { assert Keys(slots)[n] != Keys(slots)[k]; }
    forall x ensures x in p <==> x in q && x != key {
      if x in q && x != key {
        var n :| 0 <= n < |slots| && slots[n].shared && slots[n].key == x;
        assert t[if n < k then n else n - 1] == slots[n];
      }
      if x in p {
        var n :| 0 <= n < |t| && t[n].shared && t[n].key == x;
        assert t[n] == slots[if n < k then n else n + 1];
      }
    }
    assert p == q - {key as int};
  }

  lemma InsertShares(bitmaps: seq<Bitmap>, i: nat, k: nat, s: Slot)
    requires i < |bitmaps| && bitmaps[i].Live? && k <= |bitmaps[i].slots|
    requires !s.shared && forall n :: 0 <= n < |bitmaps[i].slots| ==> bitmaps[i].slots[n].key != s.key
    ensures var slots := bitmaps[i].slots;
      Unshares(bitmaps, bitmaps[i := Live(slots[..k] + [s] + slots[k..])], i, s.key)
  {
    var slots := bitmaps[i].slots;
    var t := slots[..k] + [s] + slots[k..];
    var p, q := SharedIn(Live(t)), SharedIn(Live(slots));
    forall x ensures x in p <==> x in q && x != s.key {
      if x in q {
        var n :| 0 <= n < |slots| && slots[n].shared && slots[n].key == x;
        assert t[if n < k then n else n + 1] == slots[n];
      }
      if x in p {
        var n :| 0 <= n < |t| && t[n].shared && t[n].key == x;
        assert n != k && t[n] == slots[if n < k then n else n - 1];
      }
    }
    assert p == q - {s.key as int};
  }

  /** Nothing is shared under a key that no slot has. */
  lemma NotShared(bitmaps: seq<Bitmap>, i: nat, x: int)
    requires i < |bitmaps| && bitmaps[i].Live?
    requires forall n :: 0 <= n < |bitmaps[i].slots| ==> bitmaps[i].slots[n].key != x
    ensures Unshares(bitmaps, bitmaps, i, x)
  {
    assert SharedIn(bitmaps[i]) - {x} == SharedIn(bitmaps[i]);
  }

  /** All slots shared: the keys of the bitmap. */
  lemma AllShared(slots: seq<Slot>)
    requires forall k :: 0 <= k < |slots| ==> slots[k].shared
    ensures SharedIn(Live(slots)) == (set k | k in Keys(slots) :: k as int)
  {
    forall x: int ensures x in SharedIn(Live(slots)) <==> x in (set k | k in Keys(slots) :: k as int) {
      if x in SharedIn(Live(slots)) {
        var k :| 0 <= k < |slots| && slots[k].key == x;
        assert Keys(slots)[k] in Keys(slots) && Keys(slots)[k] == x;
      }
      if x in (set k | k in Keys(slots) :: k as int) {
        var key :| key in Keys(slots) && key as int == x;
        var k :| 0 <= k < |slots| && Keys(slots)[k] == key;
        assert slots[k].shared && slots[k].key == x;
      }
    }
  }

  ghost predicate BitmapFine(cells: map<nat, Cell>, b: Bitmap) {
    b.Live? ==> Fine(cells, b.slots)
  }

  /** The invariant of the store, with references that are not in a bitmap yet, or no longer. */
  ghost predicate Sound(cells: map<nat, Cell>, bitmaps: seq<Bitmap>, pending: multiset<nat>) {
    && Counted(cells, Refs(bitmaps) + pending)
    && forall j :: 0 <= j < |bitmaps| ==> BitmapFine(cells, bitmaps[j])
  }

  ghost function ViewOf(cells: map<nat, Cell>, b: Bitmap): View {
    match b
    case Freed => Gone
    case Live(slots) => View(Keys(slots), Contents(cells, slots))
  }

  ghost function Views(cells: map<nat, Cell>, bitmaps: seq<Bitmap>): (views: seq<View>)
    ensures |views| == |bitmaps|
  {
    seq(|bitmaps|, j requires 0 <= j < |bitmaps| => ViewOf(cells, bitmaps[j]))
  }

  // ---------- references ----------

  lemma {:induction false} RefsPut(bitmaps: seq<Bitmap>, i: nat, b: Bitmap)
    requires i < |bitmaps|
    ensures Refs(bitmaps[i := b]) + Held(bitmaps[i]) == Refs(bitmaps) + Held(b)
    decreases |bitmaps|
  {
    hide Held;
    var n := |bitmaps| - 1;
    if i < n {
      RefsPut(bitmaps[..n], i, b);
      assert bitmaps[i := b][..n] == bitmaps[..n][i := b];
      AddBoth(Refs(bitmaps[..n][i := b]), Held(bitmaps[i]), Refs(bitmaps[..n]), Held(b), Held(bitmaps[n]));
    } else {
      assert bitmaps[i := b][..n] == bitmaps[..n];
      Exchange(Refs(bitmaps[..n]), Held(b), Held(bitmaps[n]));
    }
  }

  lemma AddBoth(p: multiset<nat>, h: multiset<nat>, q: multiset<nat>, k: multiset<nat>, l: multiset<nat>)
    requires p + h == q + k
    ensures (p + l) + h == (q + l) + k
  {
    forall x ensures ((p + l) + h)[x] == ((q + l) + k)[x] { assert (p + h)[x] == (q + k)[x]; }
  }

  lemma Exchange(r: multiset<nat>, p: multiset<nat>, q: multiset<nat>)
    ensures (r + p) + q == (r + q) + p
  {
  }

  lemma RefsSnoc(bitmaps: seq<Bitmap>, b: Bitmap)
    ensures Refs(bitmaps + [b]) == Refs(bitmaps) + Held(b)
  {
    hide Held;
    assert (bitmaps + [b])[..|bitmaps|] == bitmaps;
  }

  /** What the other bitmaps hold is left when one bitmap gives up all it holds. */
  lemma {:induction false} HeldElsewhere(bitmaps: seq<Bitmap>, i: nat, j: nat)
    requires i < |bitmaps| && j < |bitmaps| && i != j
    ensures Held(bitmaps[j]) <= Refs(bitmaps[i := Freed])
    decreases |bitmaps|
  {
    hide Held;
    var n := |bitmaps| - 1;
    var bs := bitmaps[i := Freed];
    if j == n {
      assert bs[n] == bitmaps[n];
    } else if i == n {
      assert bs[..n] == bitmaps[..n];
      HeldInside(bitmaps[..n], j);
    } else {
      assert bs[..n] == bitmaps[..n][i := Freed];
      HeldElsewhere(bitmaps[..n], i, j);
    }
  }

  lemma {:induction false} HeldInside(bitmaps: seq<Bitmap>, j: nat)
    requires j < |bitmaps|
    ensures Held(bitmaps[j]) <= Refs(bitmaps)
    decreases |bitmaps|
  {
    hide Held;
    if j < |bitmaps| - 1 { HeldInside(bitmaps[..|bitmaps| - 1], j); }
  }

  lemma HeldAt(slots: seq<Slot>, k: nat)
    requires k < |slots|
    ensures slots[k].at in Held(Live(slots))
  {
    assert Addresses(slots)[k] in Addresses(slots);
  }

  /** What the slots of a bitmap hold, with slot `k` taken apart. */
  lemma HeldSplit(slots: seq<Slot>, k: nat)
    requires k < |slots|
    ensures Held(Live(slots)) == Held(Live(slots[..k] + slots[k + 1..])) + multiset{slots[k].at}
    ensures forall s :: Held(Live(slots[k := s])) == Held(Live(slots[..k] + slots[k + 1..])) + multiset{s.at}
  {
    forall s ensures Held(Live(slots[k := s])) == Held(Live(slots[..k] + slots[k + 1..])) + multiset{s.at} {
      var t := slots[k := s];
      assert Addresses(t) == Addresses(slots[..k]) + [s.at] + Addresses(slots[k + 1..]);
      assert Addresses(slots[..k] + slots[k + 1..]) == Addresses(slots[..k]) + Addresses(slots[k + 1..]);
    }
    assert slots[k := slots[k]] == slots;
  }

  // ---------- cells ----------

  /** The cells that `refs` refers to have not changed in what they hold, nor in kind. */
  ghost predicate Agrees(cells: map<nat, Cell>, cells': map<nat, Cell>, refs: multiset<nat>) {
    forall a :: a in refs ==>
      a in cells && a in cells' && cells'[a].c == cells[a].c && (cells'[a].Shared? <==> cells[a].Shared?)
  }

  /** `container_free`, and the first part of `shared_container_extract_copy`: one reference less. */
  function Released(cells: map<nat, Cell>, a: nat): map<nat, Cell>
    requires a in cells
  {
    match cells[a]
    case Plain(_) => cells - {a}
    case Shared(c, counter) => if counter <= 1 then cells - {a} else cells[a := Shared(c, counter - 1)]
  }

  lemma ReleasedCounts(cells: map<nat, Cell>, refs: multiset<nat>, a: nat)
    requires Counted(cells, refs + multiset{a})
    ensures a in cells && Counted(Released(cells, a), refs) && Agrees(cells, Released(cells, a), refs)
  {
    assert a in refs + multiset{a};
    forall b ensures b in refs + multiset{a} <==> b in refs || b == a {}
    forall b ensures (refs + multiset{a})[b] == refs[b] + (if b == a then 1 else 0) {}
  }

  lemma AddedCounts(cells: map<nat, Cell>, refs: multiset<nat>, b: nat, c: Container)
    requires Counted(cells, refs) && b !in cells
    ensures Counted(cells[b := Plain(c)], refs + multiset{b}) && Agrees(cells, cells[b := Plain(c)], refs)
  {
    forall a ensures a in refs + multiset{b} <==> a in refs || a == b {}
    forall a ensures (refs + multiset{b})[a] == refs[a] + (if a == b then 1 else 0) {}
  }

  lemma WrittenCounts(cells: map<nat, Cell>, refs: multiset<nat>, a: nat, c: Container)
    requires Counted(cells, refs + multiset{a}) && a in cells && cells[a].Plain?
    ensures Counted(cells[a := Plain(c)], refs + multiset{a}) && Agrees(cells, cells[a := Plain(c)], refs)
  {
    assert (refs + multiset{a})[a] == refs[a] + 1;
    forall b | b in refs ensures b in refs + multiset{a} {}
  }

  /** `get_copy_of_container` with the flag set: the cell and its address afterwards. */
  function Doubled(cells: map<nat, Cell>, a: nat, b: nat): (map<nat, Cell>, nat)
    requires a in cells
  {
    match cells[a]
    case Shared(c, counter) => (cells[a := Shared(c, counter + 1)], a)
    case Plain(c) => ((cells - {a})[b := Shared(c, 2)], b)
  }

  lemma DoubledCounts(cells: map<nat, Cell>, refs: multiset<nat>, a: nat, b: nat)
    requires Counted(cells, refs + multiset{a}) && b !in cells
    ensures a in cells
    ensures var (cells', at) := Doubled(cells, a, b);
      Counted(cells', refs + multiset{at} + multiset{at}) && Agrees(cells, cells', refs)
      && at in cells' && cells'[at].Shared? && cells'[at].c == cells[a].c
  {
    assert a in refs + multiset{a};
    var (cells', at) := Doubled(cells, a, b);
    forall x ensures x in refs + multiset{a} <==> x in refs || x == a {}
    forall x ensures (refs + multiset{a})[x] == refs[x] + (if x == a then 1 else 0) {}
    forall x ensures x in refs + multiset{at} + multiset{at} <==> x in refs || x == at {}
    forall x ensures (refs + multiset{at} + multiset{at})[x] == refs[x] + (if x == at then 2 else 0) {}
  }

  lemma AgreesTrans(cells: map<nat, Cell>, cells1: map<nat, Cell>, cells2: map<nat, Cell>, refs: multiset<nat>)
    requires Agrees(cells, cells1, refs) && Agrees(cells1, cells2, refs)
    ensures Agrees(cells, cells2, refs)
  {
  }

  // ---------- one slot of one bitmap ----------

  function Without(slots: seq<Slot>, k: nat): seq<Slot>
    requires k < |slots|
  {
    slots[..k] + slots[k + 1..]
  }

  /** Every reference but that of slot `k` of bitmap `i`. */
  function Others(bitmaps: seq<Bitmap>, i: nat, k: nat, pending: multiset<nat>): multiset<nat>
    requires i < |bitmaps| && bitmaps[i].Live? && k < |bitmaps[i].slots|
  {
    Refs(bitmaps[i := Freed]) + pending + Held(Live(Without(bitmaps[i].slots, k)))
  }

  lemma OthersWith(bitmaps: seq<Bitmap>, i: nat, k: nat, pending: multiset<nat>, s: Slot)
    requires i < |bitmaps| && bitmaps[i].Live? && k < |bitmaps[i].slots|
    ensures Refs(bitmaps[i := Live(bitmaps[i].slots[k := s])]) + pending == Others(bitmaps, i, k, pending) +
      multiset{s.at}
  {
    hide Held, Without;
    var slots := bitmaps[i].slots;
    var bs := bitmaps[i := Live(slots[k := s])];
    RefsPut(bs, i, Freed);
    assert bs[i := Freed] == bitmaps[i := Freed];
    HeldFreed();
    HeldPut(slots, k, s);
    Regroup(Refs(bitmaps[i := Freed]), Held(Live(Without(slots, k))), multiset{s.at}, pending);
  }

  lemma HeldFreed()
    ensures Held(Freed) == multiset{}
  {
  }

  lemma HeldPut(slots: seq<Slot>, k: nat, s: Slot)
    requires k < |slots|
    ensures Held(Live(slots[k := s])) == Held(Live(Without(slots, k))) + multiset{s.at}
  {
    HeldSplit(slots, k);
  }

  lemma Regroup(r: multiset<nat>, h: multiset<nat>, s: multiset<nat>, p: multiset<nat>)
    ensures r + (h + s) + p == r + p + h + s && r + h + p == r + p + h
  {
  }

  lemma OthersNow(bitmaps: seq<Bitmap>, i: nat, k: nat, pending: multiset<nat>)
    requires i < |bitmaps| && bitmaps[i].Live? && k < |bitmaps[i].slots|
    ensures Refs(bitmaps) + pending == Others(bitmaps, i, k, pending) + multiset{bitmaps[i].slots[k].at}
    ensures Refs(bitmaps[i := Live(Without(bitmaps[i].slots, k))]) + pending == Others(bitmaps, i, k, pending)
  {
    hide Held, Without;
    var slots := bitmaps[i].slots;
    assert slots[k := slots[k]] == slots && bitmaps[i := Live(slots)] == bitmaps;
    OthersWith(bitmaps, i, k, pending, slots[k]);
    var bs := bitmaps[i := Live(Without(slots, k))];
    RefsPut(bs, i, Freed);
    assert bs[i := Freed] == bitmaps[i := Freed];
    HeldFreed();
    Regroup(Refs(bitmaps[i := Freed]), Held(Live(Without(slots, k))), multiset{}, pending);
  }

  lemma AgreesLess(cells: map<nat, Cell>, cells': map<nat, Cell>, refs: multiset<nat>, r: multiset<nat>)
    requires Agrees(cells, cells', refs) && r <= refs
    ensures Agrees(cells, cells', r)
  {
    forall a | a in r ensures a in refs { assert 0 < r[a] <= refs[a]; }
  }

  /** A bitmap whose cells have not changed looks the same. */
  lemma LooksSame(cells: map<nat, Cell>, cells': map<nat, Cell>, b: Bitmap)
    requires BitmapFine(cells, b) && Agrees(cells, cells', Held(b))
    ensures BitmapFine(cells', b) && ViewOf(cells', b) == ViewOf(cells, b)
  {
    hide Held, Layout;
    if b.Live? {
      forall k | 0 <= k < |b.slots| ensures b.slots[k].at in Held(b) { HeldAt(b.slots, k); }
      assert Contents(cells', b.slots) == Contents(cells, b.slots);
    }
  }

  /** A change to one bitmap, by which no cell that another bitmap holds changes, is seen in that bitmap alone. */
  lemma ChangeIsLocal(cells: map<nat, Cell>, bitmaps: seq<Bitmap>, pending: multiset<nat>,
                      cells': map<nat, Cell>, i: nat, b: Bitmap, pending': multiset<nat>)
    requires Sound(cells, bitmaps, pending) && i < |bitmaps|
    requires Counted(cells', Refs(bitmaps[i := b]) + pending') && BitmapFine(cells', b)
    requires Agrees(cells, cells', Refs(bitmaps[i := Freed]))
    ensures Sound(cells', bitmaps[i := b], pending')
    ensures Views(cells', bitmaps[i := b]) == Views(cells, bitmaps)[i := ViewOf(cells', b)]
  {
    hide Counted, BitmapFine, ViewOf, Held, Refs, Agrees;
    var bs := bitmaps[i := b];
    forall j | 0 <= j < |bs| && j != i
      ensures BitmapFine(cells', bs[j]) && ViewOf(cells', bs[j]) == ViewOf(cells, bs[j]) {
      HeldElsewhere(bitmaps, i, j);
      AgreesLess(cells, cells', Refs(bitmaps[i := Freed]), Held(bitmaps[j]));
      LooksSame(cells, cells', bitmaps[j]);
    }
  }

  /** What stands in the slots but `k` has not changed. */
  lemma OtherSlots(cells: map<nat, Cell>, cells': map<nat, Cell>, slots: seq<Slot>, k: nat)
    requires Fine(cells, slots) && k < |slots| && Agrees(cells, cells', Held(Live(Without(slots, k))))
    ensures forall n :: 0 <= n < |slots| && n != k ==>
      slots[n].at in cells' && (slots[n].shared <==> cells'[slots[n].at].Shared?)
    ensures forall n :: 0 <= n < |slots| && n != k ==> Content(cells', slots[n].at) == Content(cells, slots[n].at)
  {
    hide Held, Layout;
    var rest := Without(slots, k);
    forall n | 0 <= n < |slots| && n != k ensures slots[n].at in Held(Live(rest)) {
      var m := if n < k then n else n - 1;
      assert rest[m] == slots[n];
      HeldAt(rest, m);
    }
  }

  /** Another pointer in slot `k`, or another container behind it. */
  lemma PutFine(cells: map<nat, Cell>, cells': map<nat, Cell>, slots: seq<Slot>, k: nat, s: Slot)
    requires Fine(cells, slots) && k < |slots| && Agrees(cells, cells', Held(Live(Without(slots, k))))
    requires s.key == slots[k].key && s.at in cells' && (s.shared <==> cells'[s.at].Shared?) && Good(cells'[s.at].c)
    ensures Fine(cells', slots[k := s])
    ensures ViewOf(cells', Live(slots[k := s])) == View(Keys(slots), Contents(cells, slots)[k := cells'[s.at].c])
  {
    hide Held, Layout, Good, Without;
    OtherSlots(cells, cells', slots, k);
    var t := slots[k := s];
    assert Keys(t) == Keys(slots);
    assert Contents(cells', t) == Contents(cells, slots)[k := cells'[s.at].c];
    Bitmaps.PutSlot(Keys(slots), Contents(cells, slots), k, cells'[s.at].c);
  }

  /** Slot `k` taken out. */
  lemma DropFine(cells: map<nat, Cell>, cells': map<nat, Cell>, slots: seq<Slot>, k: nat)
    requires Fine(cells, slots) && k < |slots| && Agrees(cells, cells', Held(Live(Without(slots, k))))
    ensures Fine(cells', Without(slots, k))
    ensures var keys, cs := Keys(slots), Contents(cells, slots);
      ViewOf(cells', Live(Without(slots, k))) == View(keys[..k] + keys[k + 1..], cs[..k] + cs[k + 1..])
  {
    hide Held, Layout;
    OtherSlots(cells, cells', slots, k);
    var t := Without(slots, k);
    var keys, cs := Keys(slots), Contents(cells, slots);
    assert Keys(t) == keys[..k] + keys[k + 1..];
    assert Contents(cells', t) == cs[..k] + cs[k + 1..];
    Bitmaps.RemoveSlot(keys, cs, k);
  }

  /** A slot of its own at `k`. */
  lemma InsertFine(cells: map<nat, Cell>, cells': map<nat, Cell>, slots: seq<Slot>, k: nat, s: Slot)
    requires Fine(cells, slots) && Agrees(cells, cells', Held(Live(slots)))
    requires SearchResult(Keys(slots), s.key, -(k as int) - 1)
    requires s.at in cells' && (s.shared <==> cells'[s.at].Shared?) && Good(cells'[s.at].c)
    ensures k <= |slots| && Fine(cells', slots[..k] + [s] + slots[k..])
    ensures var keys, cs := Keys(slots), Contents(cells, slots);
      ViewOf(cells', Live(slots[..k] + [s] + slots[k..]))
        == View(keys[..k] + [s.key] + keys[k..], cs[..k] + [cells'[s.at].c] + cs[k..])
  {
    hide Held, Layout, Good, Agrees, Content, Contents, Keys;
    LooksSame(cells, cells', Live(slots));
    var keys, cs := Keys(slots), Contents(cells, slots);
    InsertContents(cells', slots, k, s);
    InsertKnown(cells', slots, k, s);
    Bitmaps.InsertSlot(keys, cs, k, s.key, cells'[s.at].c);
  }

  lemma InsertContents(cells: map<nat, Cell>, slots: seq<Slot>, k: nat, s: Slot)
    requires k <= |slots|
    ensures var cs := Contents(cells, slots);
      Contents(cells, slots[..k] + [s] + slots[k..]) == cs[..k] + [Content(cells, s.at)] + cs[k..]
    ensures Keys(slots[..k] + [s] + slots[k..]) == Keys(slots)[..k] + [s.key] + Keys(slots)[k..]
    ensures s.at in cells ==> Content(cells, s.at) == cells[s.at].c
  {
  }

  /** The typecodes are right around the new slot. */
  lemma InsertKnown(cells: map<nat, Cell>, slots: seq<Slot>, k: nat, s: Slot)
    requires k <= |slots| && s.at in cells && (s.shared <==> cells[s.at].Shared?)
    requires forall n :: 0 <= n < |slots| ==> slots[n].at in cells && (slots[n].shared <==> cells[slots[n].at].Shared?)
    ensures var t := slots[..k] + [s] + slots[k..];
      forall n :: 0 <= n < |t| ==> t[n].at in cells && (t[n].shared <==> cells[t[n].at].Shared?)
  {
    var t := slots[..k] + [s] + slots[k..];
    forall n | 0 <= n < |t| ensures t[n].at in cells && (t[n].shared <==> cells[t[n].at].Shared?) {
      if n < k { assert t[n] == slots[n]; } else if n > k { assert t[n] == slots[n - 1]; }
    }
  }

  /** The plain value of a bitmap, once its pointers are forgotten. */
  datatype Meaning = Dead | Holds(values: set<int>)

  ghost function MeaningOf(v: View): Meaning {
    if v.View? && |v.keys| == |v.cs| then Holds(Whole(v.keys, v.cs)) else Dead
  }

  ghost function Meanings(views: seq<View>): (ms: seq<Meaning>)
    ensures |ms| == |views|
  {
    seq(|views|, j requires 0 <= j < |views| => MeaningOf(views[j]))
  }

  lemma MeaningsPut(views: seq<View>, i: nat, v: View)
    requires i < |views|
    ensures Meanings(views[i := v]) == Meanings(views)[i := MeaningOf(v)]
  {
    hide MeaningOf;
  }

  // ---------- histories ----------

  datatype Command =
    | CreateCmd
    | CopyCmd(i: nat)
    | FlagCmd(i: nat, cow: bool)
    | AddCmd(i: nat, val: u32)
    | RemoveCmd(i: nat, val: u32)
    | FreeCmd(i: nat)

  /** The caller names a bitmap that has not been freed. */
  predicate Allowed(m: seq<Meaning>, cmd: Command) {
    !cmd.CreateCmd? ==> cmd.i < |m| && m[cmd.i].Holds?
  }

  /** What a command means on plain sets. */
  function Apply(m: seq<Meaning>, cmd: Command): seq<Meaning>
    requires Allowed(m, cmd)
  {
    match cmd
    case CreateCmd => m + [Holds({})]
    case CopyCmd(i) => m + [m[i]]
    case FlagCmd(_, _) => m
    case AddCmd(i, val) => m[i := Holds(m[i].values + {val as int})]
    case RemoveCmd(i, val) => m[i := Holds(m[i].values - {val as int})]
    case FreeCmd(i) => m[i := Dead]
  }

  function Replay(m: seq<Meaning>, cmds: seq<Command>): seq<Meaning> {
    if cmds == [] then m
    else
      var n := |cmds| - 1;
      var r := Replay(m, cmds[..n]);
      if Allowed(r, cmds[n]) then Apply(r, cmds[n]) else r
  }

  /** The bitmaps with the flag set, and the keys under which each bitmap shares its container. */
  datatype Flags = Flags(on: set<nat>, shared: seq<set<int>>)

  /** The keys that a set of values needs. */
  function KeysIn(s: set<int>): set<int> { set x | x in s :: x / 0x1_0000 }

  /**
   A copy inherits the flag; when it is set, original and copy share all containers. An addition or a removal ends the
   sharing under the key of its value.
   */
  function Flagged(f: Flags, m: seq<Meaning>, cmd: Command): (f': Flags)
    requires |f.shared| == |m| && Allowed(m, cmd)
    ensures |f'.shared| == |Apply(m, cmd)|
  {
    match cmd
    case CreateCmd => Flags(f.on - {|m|}, f.shared + [{}])
    case CopyCmd(i) =>
      if i in f.on then
        var keys := KeysIn(m[i].values);
        Flags(f.on + {|m|}, f.shared[i := keys] + [keys])
      else Flags(f.on - {|m|}, f.shared + [{}])
    case FlagCmd(i, cow) => Flags(if cow then f.on + {i} else f.on - {i}, f.shared)
    case AddCmd(i, val) => Flags(f.on, f.shared[i := f.shared[i] - {val / 0x1_0000}])
    case RemoveCmd(i, val) => Flags(f.on, f.shared[i := f.shared[i] - {val / 0x1_0000}])
    case FreeCmd(i) => Flags(f.on, f.shared[i := {}])
  }

  function ReplayFlags(m: seq<Meaning>, f: Flags, cmds: seq<Command>): (f': Flags)
    requires |f.shared| == |m|
    ensures |f'.shared| == |Replay(m, cmds)|
  {
    if cmds == [] then f
    else
      var n := |cmds| - 1;
      var r := Replay(m, cmds[..n]);
      var g := ReplayFlags(m, f, cmds[..n]);
      if Allowed(r, cmds[n]) then Flagged(g, r, cmds[n]) else g
  }

  /** A copy without the flag of a bitmap that shares a container: the one command that the code gets wrong. */
  predicate Unsafe(f: Flags, cmd: Command) {
    cmd.CopyCmd? && cmd.i !in f.on && cmd.i < |f.shared| && f.shared[cmd.i] != {}
  }

  /** Command `n` of a history is such a copy, which its flags and sets decide. */
  predicate UnsafeAt(m: seq<Meaning>, f: Flags, cmds: seq<Command>, n: nat)
    requires |f.shared| == |m| && n < |cmds|
  {
    Unsafe(ReplayFlags(m, f, cmds[..n]), cmds[n])
  }

  ghost predicate AllowedAll(m: seq<Meaning>, cmds: seq<Command>) {
    forall n :: 0 <= n < |cmds| ==> Allowed(Replay(m, cmds[..n]), cmds[n])
  }

  lemma NothingHeld()
    ensures MeaningOf(View([], [])) == Holds({})
  {
  }

  lemma GoneIsDead()
    ensures MeaningOf(Gone) == Dead
  {
  }

  /** The live slots that point to `a`. */
  ghost function Pointers(bitmaps: seq<Bitmap>, a: nat): set<(int, int)> {
    set j, k | 0 <= j < |bitmaps| && bitmaps[j].Live? && 0 <= k < |bitmaps[j].slots| &&
      bitmaps[j].slots[k].at == a :: (j, k)
  }

  ghost function Row(j: int, slots: seq<Slot>, a: nat): set<(int, int)> {
    set k | 0 <= k < |slots| && slots[k].at == a :: (j, k)
  }

  lemma {:induction false} RowCount(j: int, slots: seq<Slot>, a: nat)
    ensures |Row(j, slots, a)| == Held(Live(slots))[a]
    decreases |slots|
  {
    if slots == [] {
      assert Row(j, slots, a) == {};
      HeldNothing();
    } else {
      var n := |slots| - 1;
      RowCount(j, slots[..n], a);
      HeldNext(slots, n);
      assert slots[..n + 1] == slots;
      if slots[n].at == a {
        assert Row(j, slots, a) == Row(j, slots[..n], a) + {(j, n)};
      } else {
        assert Row(j, slots, a) == Row(j, slots[..n], a);
      }
    }
  }

  lemma {:induction false} PointersCount(bitmaps: seq<Bitmap>, a: nat)
    ensures |Pointers(bitmaps, a)| == Refs(bitmaps)[a]
    decreases |bitmaps|
  {
    hide Held;
    if bitmaps == [] {
      assert Pointers(bitmaps, a) == {};
    } else {
      var n := |bitmaps| - 1;
      PointersCount(bitmaps[..n], a);
      var row := if bitmaps[n].Live? then Row(n, bitmaps[n].slots, a) else {};
      PointersSplit(bitmaps, a);
      DisjointSizes(Pointers(bitmaps[..n], a), row);
      if bitmaps[n].Live? { RowCount(n, bitmaps[n].slots, a); } else { HeldFreed(); }
    }
  }

  lemma PointersSplit(bitmaps: seq<Bitmap>, a: nat)
    requires bitmaps != []
    ensures var n := |bitmaps| - 1;
      var row := if bitmaps[n].Live? then Row(n, bitmaps[n].slots, a) else {};
      Pointers(bitmaps, a) == Pointers(bitmaps[..n], a) + row && Pointers(bitmaps[..n], a) !! row
  {
  }

  lemma DisjointSizes(a: set<(int, int)>, b: set<(int, int)>)
    requires a !! b
    ensures |a + b| == |a| + |b|
  {
  }

  lemma {:induction false} NoRefs(bitmaps: seq<Bitmap>)
    requires forall j :: 0 <= j < |bitmaps| ==> bitmaps[j].Freed?
    ensures Refs(bitmaps) == multiset{}
    decreases |bitmaps|
  {
    if bitmaps != [] { NoRefs(bitmaps[..|bitmaps| - 1]); }
  }

  /** The live bitmaps and the cells they point to. */
  class Store {
    var cells: map<nat, Cell>
    var bitmaps: seq<Bitmap>
    var next: nat
    var flagged: set<nat>

    ghost predicate SoundWith(pending: multiset<nat>)
      reads this
    {
      Sound(cells, bitmaps, pending) && forall a :: a in cells ==> a < next
    }

    ghost predicate Valid()
      reads this
    {
      SoundWith(multiset{})
    }

    ghost function Seen(): (views: seq<View>)
      ensures |views| == |bitmaps|
      reads this
    {
      Views(cells, bitmaps)
    }

    ghost function Model(): (ms: seq<Meaning>)
      ensures |ms| == |bitmaps|
      reads this
    {
      Meanings(Seen())
    }

    predicate IsSlot(i: nat, k: nat)
      reads this
    {
      i < |bitmaps| && bitmaps[i].Live? && k < |bitmaps[i].slots|
    }

    ghost function KeysOf(i: nat): seq<u16>
      requires i < |bitmaps| && bitmaps[i].Live?
      reads this
    {
      Keys(bitmaps[i].slots)
    }

    ghost function ContentsOf(i: nat): seq<Container>
      requires i < |bitmaps| && bitmaps[i].Live?
      reads this
    {
      Contents(cells, bitmaps[i].slots)
    }

    constructor ()
      ensures Valid() && bitmaps == []
    {
      cells, bitmaps, next, flagged := map[], [], 0, {};
    }

    lemma SortedKeys(i: nat)
      requires i < |bitmaps| && bitmaps[i].Live?
      requires exists pending :: SoundWith(pending)
      ensures Sorted(KeysOf(i))
    {
      hide Counted, Held, Refs, Good;
      assert BitmapFine(cells, bitmaps[i]);
      Bitmaps.LayoutIs(KeysOf(i), ContentsOf(i));
    }

    /** A key that a search does not find is in no slot. */
    lemma KeyIsNew(i: nat, key: u16, r: int)
      requires Valid() && i < |bitmaps| && bitmaps[i].Live? && SearchResult(KeysOf(i), key, r) && r < 0
      ensures forall n :: 0 <= n < |bitmaps[i].slots| ==> bitmaps[i].slots[n].key != key
    {
      hide Counted, Held, Refs, Good;
      var keys := KeysOf(i);
      forall n | 0 <= n < |bitmaps[i].slots| ensures bitmaps[i].slots[n].key != key { assert keys[n] != key; }
    }

    /** A new pointer and its cell, put into slot `k` after the old reference has been given up. */
    method Repoint(i: nat, k: nat, c: Container)
      requires Valid() && IsSlot(i, k) && Good(c)
      modifies this`cells, this`bitmaps, this`next
      ensures Valid() && IsSlot(i, k) && bitmaps == old(bitmaps)[i := bitmaps[i]] && !bitmaps[i].slots[k].shared
      ensures Seen() == old(Seen())[i := View(old(KeysOf(i)), old(ContentsOf(i))[k := c])]
      ensures Unshares(old(bitmaps), bitmaps, i, old(bitmaps[i].slots[k].key))
    {
      hide Counted, Agrees, Held, Refs, Fine, Without, Good, Released, ViewOf, Unshares;
      var slots := bitmaps[i].slots;
      var s := slots[k];
      ghost var others := Others(bitmaps, i, k, multiset{});
      OthersNow(bitmaps, i, k, multiset{});
      ReleasedCounts(cells, others, s.at);
      var cells1 := Released(cells, s.at);
      FewerCells(cells, s.at);
      AddedCounts(cells1, others, next, c);
      var cells2 := cells1[next := Plain(c)];
      AgreesTrans(cells, cells1, cells2, others);
      PutSound(cells, bitmaps, multiset{}, cells2, i, k, Slot(s.key, false, next), multiset{});
      SortedKeys(i);
      PutShares(bitmaps, i, k, Slot(s.key, false, next));
      cells := cells2;
      bitmaps := bitmaps[i := Live(slots[k := Slot(s.key, false, next)])];
      next := next + 1;
    }

    /** `ra_unshare_container_at_index`: the last holder takes the container over, any other one copies it. */
    method Unshare(i: nat, k: nat)
      requires Valid() && IsSlot(i, k)
      modifies this`cells, this`bitmaps, this`next
      ensures Valid() && IsSlot(i, k) && bitmaps == old(bitmaps)[i := bitmaps[i]] && !bitmaps[i].slots[k].shared
      ensures Seen() == old(Seen()) && Unshares(old(bitmaps), bitmaps, i, old(bitmaps[i].slots[k].key))
    {
      hide Counted, Held, Refs, Good, Layout, Unshares;
      SortedKeys(i);
      var s := bitmaps[i].slots[k];
      FineSlot(cells, bitmaps[i].slots, k);
      if s.shared {
        var c := cells[s.at].c;
        Repoint(i, k, c);
        assert old(ContentsOf(i))[k := c] == old(ContentsOf(i));
        assert old(Seen())[i] == View(old(KeysOf(i)), old(ContentsOf(i)));
      } else {
        PutShares(bitmaps, i, k, s);
        assert bitmaps[i].slots[k := s] == bitmaps[i].slots && bitmaps[i := Live(bitmaps[i].slots)] == bitmaps;
      }
    }

    /** A write to the container of a slot that is not shared. */
    method WriteInPlace(i: nat, k: nat, c: Container)
      requires Valid() && IsSlot(i, k) && !bitmaps[i].slots[k].shared && Good(c)
      modifies this`cells
      ensures Valid() && Seen() == old(Seen())[i := View(KeysOf(i), old(ContentsOf(i))[k := c])]
    {
      hide Counted, Agrees, Held, Refs, Fine, Without, Good, ViewOf;
      var slots := bitmaps[i].slots;
      var s := slots[k];
      assert BitmapFine(cells, bitmaps[i]);
      FineSlot(cells, slots, k);
      ghost var others := Others(bitmaps, i, k, multiset{});
      OthersNow(bitmaps, i, k, multiset{});
      WrittenCounts(cells, others, s.at, c);
      PutSound(cells, bitmaps, multiset{}, cells[s.at := Plain(c)], i, k, s, multiset{});
      assert slots[k := s] == slots && bitmaps[i := Live(slots)] == bitmaps;
      cells := cells[s.at := Plain(c)];
    }

    /** `ra_insert_new_key_value_at` with a new container. */
    method InsertNew(i: nat, k: nat, key: u16, c: Container)
      requires Valid() && i < |bitmaps| && bitmaps[i].Live? && Good(c) && SearchResult(KeysOf(i), key, -(k as int) - 1)
      modifies this`cells, this`bitmaps, this`next
      ensures Valid() && |bitmaps| == old(|bitmaps|) && Unshares(old(bitmaps), bitmaps, i, key)
      ensures var keys, cs := old(KeysOf(i)), old(ContentsOf(i));
        Seen() == old(Seen())[i := View(keys[..k] + [key] + keys[k..], cs[..k] + [c] + cs[k..])]
    {
      hide Counted, Agrees, Held, Refs, Fine, Good, ViewOf, Unshares;
      var slots := bitmaps[i].slots;
      assert BitmapFine(cells, bitmaps[i]);
      var s := Slot(key, false, next);
      var slots' := slots[..k] + [s] + slots[k..];
      NonePending(Refs(bitmaps));
      AddedCounts(cells, Refs(bitmaps), next, c);
      var cells' := cells[next := Plain(c)];
      InsertRefs(bitmaps, i, k, s);
      NonePending(Refs(bitmaps[i := Live(slots')]));
      AgreesLess(cells, cells', Refs(bitmaps), Held(Live(slots)));
      AgreesLess(cells, cells', Refs(bitmaps), Refs(bitmaps[i := Freed]));
      InsertFine(cells, cells', slots, k, s);
      ChangeIsLocal(cells, bitmaps, multiset{}, cells', i, Live(slots'), multiset{});
      KeyIsNew(i, key, -(k as int) - 1);
      InsertShares(bitmaps, i, k, s);
      cells := cells';
      bitmaps := bitmaps[i := Live(slots')];
      next := next + 1;
    }

    /** `ra_remove_at_index_and_free` */
    method RemoveAt(i: nat, k: nat)
      requires Valid() && IsSlot(i, k)
      modifies this`cells, this`bitmaps, this`next
      ensures Valid() && |bitmaps| == old(|bitmaps|) && Unshares(old(bitmaps), bitmaps, i, old(bitmaps[i].slots[k].key))
      ensures var keys, cs := old(KeysOf(i)), old(ContentsOf(i));
        Seen() == old(Seen())[i := View(keys[..k] + keys[k + 1..], cs[..k] + cs[k + 1..])]
    {
      hide Counted, Agrees, Held, Refs, Fine, Without, Released, ViewOf, Unshares;
      var slots := bitmaps[i].slots;
      assert BitmapFine(cells, bitmaps[i]);
      ghost var others := Others(bitmaps, i, k, multiset{});
      OthersNow(bitmaps, i, k, multiset{});
      OthersParts(bitmaps, i, k, multiset{});
      ReleasedCounts(cells, others, slots[k].at);
      FewerCells(cells, slots[k].at);
      var cells' := Released(cells, slots[k].at);
      AgreesLess(cells, cells', others, Held(Live(Without(slots, k))));
      AgreesLess(cells, cells', others, Refs(bitmaps[i := Freed]));
      DropFine(cells, cells', slots, k);
      ChangeIsLocal(cells, bitmaps, multiset{}, cells', i, Live(Without(slots, k)), multiset{});
      SortedKeys(i);
      DropShares(bitmaps, i, k);
      cells := cells';
      bitmaps := bitmaps[i := Live(Without(slots, k))];
    }

    /** `ra_get_index` */
    method GetIndex(i: nat, x: u16) returns (r: int)
      requires Valid() && i < |bitmaps| && bitmaps[i].Live?
      ensures SearchResult(KeysOf(i), x, r)
    {
      hide Counted, Held, Refs, Good;
      var slots := bitmaps[i].slots;
      var n := |slots|;
      assert BitmapFine(cells, bitmaps[i]);
      Bitmaps.LayoutIs(KeysOf(i), ContentsOf(i));
      if n == 0 || slots[n - 1].key == x {
        return n - 1;
      }
      var keys := new u16[n](k requires 0 <= k < n => slots[k].key);
      assert keys[0..0 + n] == KeysOf(i);
      r := BinarySearch(keys, 0, n, x);
    }

    // ---------- the operations ----------

    ghost predicate Exists(i: nat)
      reads this
    {
      i < |bitmaps| && bitmaps[i].Live?
    }

    ghost function ValuesOf(i: nat): set<int>
      requires Exists(i)
      reads this
    {
      Whole(KeysOf(i), ContentsOf(i))
    }

    lemma SeesLayout(i: nat)
      requires Valid() && Exists(i)
      ensures Layout(KeysOf(i), ContentsOf(i)) && Seen()[i] == View(KeysOf(i), ContentsOf(i))
      ensures Model()[i] == Holds(ValuesOf(i))
    {
      hide Counted, Layout, Whole;
      assert BitmapFine(cells, bitmaps[i]);
    }

    /** `ra_unshare_container_at_index` and `ra_get_container_at_index`: the container of slot `k`, for writing. */
    method Writable(i: nat, k: nat) returns (c: Container)
      requires Valid() && IsSlot(i, k)
      modifies this`cells, this`bitmaps, this`next
      ensures Valid() && IsSlot(i, k) && !bitmaps[i].slots[k].shared && Seen() == old(Seen())
      ensures KeysOf(i) == old(KeysOf(i)) && ContentsOf(i) == old(ContentsOf(i)) && c == old(ContentsOf(i))[k] &&
        Good(c)
      ensures Unshares(old(bitmaps), bitmaps, i, old(KeysOf(i))[k])
    {
      hide Good, Layout, Counted, Unshares, Views;
      SeesLayout(i);
      Unshare(i, k);
      SeesLayout(i);
      assert BitmapFine(cells, bitmaps[i]);
      FineSlot(cells, bitmaps[i].slots, k);
      c := cells[bitmaps[i].slots[k].at].c;
    }

    /** Stores what an operation returned: in place, or behind a new pointer. */
    method PutContainer(i: nat, k: nat, c: Container, inPlace: bool)
      requires Valid() && IsSlot(i, k) && !bitmaps[i].slots[k].shared && Good(c)
      modifies this`cells, this`bitmaps, this`next
      ensures Valid() && Seen() == old(Seen())[i := View(old(KeysOf(i)), old(ContentsOf(i))[k := c])]
      ensures Unshares(old(bitmaps), bitmaps, i, old(KeysOf(i))[k])
    {
      hide Good, Layout, Sound, Unshares, Views;
      if inPlace {
        ghost var s := bitmaps[i].slots[k];
        SortedKeys(i);
        PutShares(bitmaps, i, k, s);
        assert bitmaps[i].slots[k := s] == bitmaps[i].slots && bitmaps[i := Live(bitmaps[i].slots)] == bitmaps;
        WriteInPlace(i, k, c);
      } else {
        Repoint(i, k, c);
      }
    }

    /** `roaring_bitmap_add_checked` */
    method AddChecked(i: nat, val: u32) returns (result: bool)
      requires Valid() && Exists(i)
      modifies this`cells, this`bitmaps, this`next
      ensures Valid() && Model() == old(Model())[i := Holds(old(ValuesOf(i)) + {val as int})]
      ensures Unshares(old(bitmaps), bitmaps, i, val / 0x1_0000)
      ensures result <==> val !in old(ValuesOf(i))
    {
      hide Elems, At, Whole, Good, Dense, Containers.Valid, Layout, Bitmaps.SameBut, Sorted, Sound, Meanings, Views,
        Unshares;
      ghost var keys, cs, views := KeysOf(i), ContentsOf(i), Seen();
      SeesLayout(i);
      Bitmaps.LayoutIs(keys, cs);
      var hb, lb := val / 0x1_0000, val % 0x1_0000;
      var k := GetIndex(i, hb);
      Bitmaps.PointMember(keys, cs, val);
      if k >= 0 {
        AtIndex(keys, cs, k);
        Bitmaps.GoodAt(cs, k);
        var c := Writable(i, k);
        var oldCardinality := ContainerQueries.Cardinality(c);
        var c2, inPlace := ContainerUpdates.Add(c, lb);
        Bitmaps.AddedIsGood(c, c2, lb);
        Bitmaps.PutSlot(keys, cs, k, c2);
        Bitmaps.PointChange(keys, cs, keys, cs[k := c2], val);
        ghost var before := bitmaps;
        PutContainer(i, k, c2, inPlace);
        UnsharesTwice(old(bitmaps), before, bitmaps, i, hb);
        if inPlace {
          var newCardinality := ContainerQueries.Cardinality(c2);
          result := oldCardinality != newCardinality;
        } else {
          result := true;
        }
        MeaningsPut(views, i, View(keys, cs[k := c2]));
      } else {
        AtMissing(keys, cs, hb);
        AddNew(i, val, -k - 1);
        result := true;
      }
    }

    /** The value of a key that the bitmap does not have yet. */
    method AddNew(i: nat, val: u32, p: nat)
      requires Valid() && Exists(i) && SearchResult(KeysOf(i), val / 0x1_0000, -(p as int) - 1)
      modifies this`cells, this`bitmaps, this`next
      ensures Valid() && Model() == old(Model())[i := Holds(old(ValuesOf(i)) + {val as int})]
      ensures Unshares(old(bitmaps), bitmaps, i, val / 0x1_0000)
    {
      hide Elems, At, Whole, Good, Dense, Containers.Valid, Layout, Bitmaps.SameBut, Sorted, Sound, Meanings, Views,
        Unshares;
      ghost var keys, cs, views := KeysOf(i), ContentsOf(i), Seen();
      SeesLayout(i);
      Bitmaps.LayoutIs(keys, cs);
      var hb, lb := val / 0x1_0000, val % 0x1_0000;
      Bitmaps.EmptyArray();
      var c, _ := ContainerUpdates.Add(ArrayC([]), lb);
      Bitmaps.AddedIsGood(ArrayC([]), c, lb);
      Bitmaps.InsertSlot(keys, cs, p, hb, c);
      Bitmaps.PointChange(keys, cs, keys[..p] + [hb] + keys[p..], cs[..p] + [c] + cs[p..], val);
      InsertNew(i, p, hb, c);
      MeaningsPut(views, i, View(keys[..p] + [hb] + keys[p..], cs[..p] + [c] + cs[p..]));
    }

    /** `roaring_bitmap_remove_checked` */
    method RemoveChecked(i: nat, val: u32) returns (result: bool)
      requires Valid() && Exists(i)
      modifies this`cells, this`bitmaps, this`next
      ensures Valid() && Model() == old(Model())[i := Holds(old(ValuesOf(i)) - {val as int})]
      ensures Unshares(old(bitmaps), bitmaps, i, val / 0x1_0000)
      ensures result <==> val in old(ValuesOf(i))
    {
      hide Elems, At, Whole, Good, Dense, Containers.Valid, Layout, Sorted, Sound, Meanings, Views, Unshares;
      ghost var keys, cs, views := KeysOf(i), ContentsOf(i), Seen();
      SeesLayout(i);
      Bitmaps.LayoutIs(keys, cs);
      var hb, lb := val / 0x1_0000, val % 0x1_0000;
      var k := GetIndex(i, hb);
      if k < 0 {
        Bitmaps.PointMember(keys, cs, val);
        Bitmaps.Unchanged(Whole(keys, cs), val);
        AtMissing(keys, cs, hb);
        KeyIsNew(i, hb, k);
        NotShared(bitmaps, i, hb);
        return false;
      }
      Bitmaps.GoodAt(cs, k);
      var c := Writable(i, k);
      var oldCardinality := ContainerQueries.Cardinality(c);
      var c2, inPlace := ContainerUpdates.Remove(c, lb);
      var newCardinality := ContainerQueries.Cardinality(c2);
      Bitmaps.TakenFrom(keys, cs, k, val, c2);
      ghost var before := bitmaps;
      if newCardinality != 0 {
        Bitmaps.NotEmpty(c2);
        Bitmaps.GoodIs(c2);
        PutContainer(i, k, c2, inPlace);
        MeaningsPut(views, i, View(keys, cs[k := c2]));
      } else {
        SlotKey(i, k);
        RemoveAt(i, k);
        MeaningsPut(views, i, View(keys[..k] + keys[k + 1..], cs[..k] + cs[k + 1..]));
      }
      UnsharesTwice(old(bitmaps), before, bitmaps, i, hb);
      result := oldCardinality != newCardinality;
    }

    lemma SlotKey(i: nat, k: nat)
      requires IsSlot(i, k)
      ensures bitmaps[i].slots[k].key == KeysOf(i)[k]
    {
    }

    /** What is seen of a bitmap, by its slots. */
    lemma SeenSlots(i: nat)
      requires Exists(i)
      ensures Seen()[i] == View(KeysOf(i), ContentsOf(i))
    {
    }

    /** `get_copy_of_container` for slot `k`: a pointer to be stored in the copy is pending. */
    method ShareSlot(i: nat, k: nat, ghost pending: multiset<nat>)
      requires SoundWith(pending) && IsSlot(i, k)
      modifies this`cells, this`bitmaps, this`next
      ensures IsSlot(i, k) && SoundWith(pending + multiset{bitmaps[i].slots[k].at}) && Seen() == old(Seen())
      ensures bitmaps == old(bitmaps)[i := bitmaps[i]]
      ensures bitmaps[i].slots == old(bitmaps[i].slots)[k := bitmaps[i].slots[k]] && bitmaps[i].slots[k].shared
    {
      hide Counted, Agrees, Held, Refs, Fine, Without, Good, Doubled, Layout;
      var slots := bitmaps[i].slots;
      var s := slots[k];
      ghost var others := Others(bitmaps, i, k, pending);
      assert BitmapFine(cells, bitmaps[i]);
      FineSlot(cells, slots, k);
      OthersNow(bitmaps, i, k, pending);
      DoubledCounts(cells, others, s.at, next);
      DoubledBounded(cells, s.at, next);
      var (cells', at) := Doubled(cells, s.at, next);
      var s' := Slot(s.key, true, at);
      OthersMore(bitmaps, i, k, pending, at);
      PutSound(cells, bitmaps, pending, cells', i, k, s', pending + multiset{at});
      assert Contents(cells, slots)[k := cells'[at].c] == Contents(cells, slots);
      assert Seen()[i := View(Keys(slots), Contents(cells, slots))] == Seen();
      cells := cells';
      bitmaps := bitmaps[i := Live(slots[k := s'])];
      next := next + 1;
    }

    /** `ra_copy` with the flag set: both bitmaps point to shared containers afterwards. */
    method Share(i: nat) returns (id: nat)
      requires Valid() && Exists(i)
      modifies this`cells, this`bitmaps, this`next
      ensures Valid() && id == |old(bitmaps)| && Seen() == old(Seen()) + [old(Seen())[i]]
      ensures |bitmaps| == id + 1 && forall j :: 0 <= j < id && j != i ==> bitmaps[j] == old(bitmaps)[j]
      ensures Exists(i) && bitmaps[id] == bitmaps[i] && SharedIn(bitmaps[i]) == KeysIn(old(ValuesOf(i)))
    {
      hide Counted, Agrees, Held, Refs, Fine, Without, Good, Doubled, Layout, Views, Sound;
      var n := |bitmaps[i].slots|;
      SeesLayout(i);
      HeldNothing();
      var k := 0;
      while k < n
        invariant k <= n && Exists(i) && |bitmaps[i].slots| == n && |bitmaps| == |old(bitmaps)|
        invariant SoundWith(Held(Live(bitmaps[i].slots[..k]))) && Seen() == old(Seen())
        invariant forall q :: 0 <= q < k ==> bitmaps[i].slots[q].shared
        invariant forall j :: 0 <= j < |bitmaps| && j != i ==> bitmaps[j] == old(bitmaps)[j]
      {
        ghost var slots := bitmaps[i].slots;
        ShareSlot(i, k, Held(Live(slots[..k])));
        HeldNext(bitmaps[i].slots, k);
        assert bitmaps[i].slots[..k] == slots[..k];
        k := k + 1;
      }
      assert bitmaps[i].slots[..n] == bitmaps[i].slots;
      CopySound(cells, bitmaps, i);
      AllShared(bitmaps[i].slots);
      SeenSlots(i);
      SlotKeys(old(KeysOf(i)), old(ContentsOf(i)));
      id := |bitmaps|;
      bitmaps := bitmaps + [bitmaps[i]];
    }

    /**
     `ra_copy` without the flag: a container of its own for every slot, behind the typecode of the original. A pointer
     to a plain container that is marked as shared breaks the invariant, so the copy is right exactly when nothing is
     shared.
     */
    method Clone(i: nat) returns (id: nat)
      requires Valid() && Exists(i)
      modifies this`cells, this`bitmaps, this`next
      ensures id == |old(bitmaps)| && |bitmaps| == id + 1 && bitmaps[..id] == old(bitmaps)
      ensures Valid() <==> !Sharing(old(bitmaps)[i])
      ensures Valid() ==> Seen() == old(Seen()) + [old(Seen())[i]] && SharedIn(bitmaps[id]) == {}
    {
      hide Counted, Agrees, Held, Refs, Fine, Good, Layout, Sound;
      var slots := bitmaps[i].slots;
      var copied: seq<Slot> := [];
      HeldNothing();
      while |copied| < |slots|
        invariant |copied| <= |slots| && bitmaps == old(bitmaps) && SoundWith(Held(Live(copied))) &&
          Seen() == old(Seen())
        invariant Clones(cells, slots, copied)
      {
        var k := |copied|;
        CloneSlot(cells, bitmaps, i, copied, next);
        var c := Content(cells, slots[k].at);
        copied := copied + [Slot(slots[k].key, slots[k].shared, next)];
        cells := cells[next := Plain(c)];
        next := next + 1;
      }
      CloneSound(cells, bitmaps, i, copied);
      id := |bitmaps|;
      bitmaps := bitmaps + [Live(copied)];
    }

    /** `roaring_bitmap_copy`, which hands the flag on. */
    method Copy(i: nat) returns (id: nat)
      requires Valid() && Exists(i)
      modifies this
      ensures id == |old(bitmaps)| && |bitmaps| == id + 1
      ensures flagged == if i in old(flagged) then old(flagged) + {id} else old(flagged) - {id}
      ensures Valid() <==> i in old(flagged) || !Sharing(old(bitmaps)[i])
      ensures Valid() ==> Seen() == old(Seen()) + [old(Seen())[i]]
      ensures Exists(i) && forall j :: 0 <= j < id && j != i ==> bitmaps[j] == old(bitmaps)[j]
      ensures Valid() ==>
        if i in old(flagged) then SharedIn(bitmaps[i]) == SharedIn(bitmaps[id]) == KeysIn(old(ValuesOf(i)))
        else SharedIn(bitmaps[i]) == SharedIn(old(bitmaps)[i]) == SharedIn(bitmaps[id]) == {}
    {
      hide Sound, Views, Whole;
      SharedInSome(bitmaps[i]);
      SeesLayout(i);
      if i in flagged {
        id := Share(i);
        flagged := flagged + {id};
      } else {
        id := Clone(i);
        flagged := flagged - {id};
      }
    }

    /** `container_free` for a pointer that no bitmap holds any more. */
    method Release(a: nat, ghost pending: multiset<nat>)
      requires SoundWith(pending + multiset{a})
      modifies this`cells
      ensures SoundWith(pending) && Seen() == old(Seen())
    {
      hide Counted, Agrees, Held, Refs, Fine, Released, BitmapFine;
      Nested(Refs(bitmaps), pending, multiset{a});
      ReleasedCounts(cells, Refs(bitmaps) + pending, a);
      FewerCells(cells, a);
      AgreesLess(cells, Released(cells, a), Refs(bitmaps) + pending, Refs(bitmaps));
      AllSame(cells, Released(cells, a), bitmaps);
      cells := Released(cells, a);
    }

    /** `roaring_bitmap_free` */
    method Free(i: nat)
      requires Valid() && Exists(i)
      modifies this`cells, this`bitmaps, this`next
      ensures Valid() && Seen() == old(Seen())[i := Gone] && bitmaps == old(bitmaps)[i := Freed]
    {
      hide Counted, Agrees, Held, Refs, Fine, Released, Sound;
      var slots := bitmaps[i].slots;
      FreedSound(cells, bitmaps, i);
      bitmaps := bitmaps[i := Freed];
      assert slots[0..] == slots;
      var k := 0;
      while k < |slots|
        invariant k <= |slots| && SoundWith(Held(Live(slots[k..]))) && Seen() == old(Seen())[i := Gone]
        invariant bitmaps == old(bitmaps)[i := Freed]
      {
        HeldTail(slots, k);
        Release(slots[k].at, Held(Live(slots[k + 1..])));
        k := k + 1;
      }
      HeldNothing();
      assert slots[k..] == [];
    }

    lemma Existing(i: nat)
      requires i < |bitmaps| && Model()[i].Holds?
      ensures Exists(i)
    {
    }

    /** `roaring_bitmap_create`: the flag is clear. */
    method Create() returns (id: nat)
      requires Valid()
      modifies this`bitmaps, this`flagged
      ensures Valid() && id == |old(bitmaps)| && Seen() == old(Seen()) + [View([], [])]
      ensures bitmaps == old(bitmaps) + [Live([])] && flagged == old(flagged) - {id}
    {
      hide Counted, Refs;
      HeldNothing();
      RefsSnoc(bitmaps, Live([]));
      NonePending(Refs(bitmaps));
      id := |bitmaps|;
      bitmaps := bitmaps + [Live([])];
      flagged := flagged - {id};
      assert Keys([]) == [] && Contents(cells, []) == [];
    }

    /** `roaring_bitmap_set_copy_on_write` */
    method SetCopyOnWrite(i: nat, cow: bool)
      modifies this`flagged
      ensures flagged == if cow then old(flagged) + {i} else old(flagged) - {i}
    {
      flagged := if cow then flagged + {i} else flagged - {i};
    }

    /** The flags are as `f` says, and so is what the bitmaps share. */
    ghost predicate Tracks(f: Flags)
      reads this
    {
      && flagged == f.on && |f.shared| == |bitmaps|
      && forall j :: 0 <= j < |bitmaps| ==> SharedIn(bitmaps[j]) == f.shared[j]
    }

    /** Says whether the command did what it means; only a copy may not. */
    method Do(cmd: Command, ghost f: Flags) returns (ok: bool)
      requires Valid() && Allowed(Model(), cmd) && Tracks(f)
      modifies this
      ensures ok <==> !Unsafe(f, cmd)
      ensures ok <==> Valid()
      ensures ok ==> Model() == Apply(old(Model()), cmd) && Tracks(Flagged(f, old(Model()), cmd))
    {
      hide Sound, MeaningOf, Views, Whole, Sharing, SharedIn;
      AllowedExists(cmd);
      ok := true;
      match cmd {
        case CreateCmd =>
          var _ := Create();
          NothingHeld();
          NothingShared();
        case CopyCmd(i) =>
          SharedInSome(bitmaps[i]);
          SeesLayout(i);
          ok := i in flagged || !SharesSlot(i);
          var _ := Copy(i);
        case FlagCmd(i, cow) =>
          SetCopyOnWrite(i, cow);
        case AddCmd(i, val) =>
          SeesLayout(i);
          var _ := AddChecked(i, val);
        case RemoveCmd(i, val) =>
          SeesLayout(i);
          var _ := RemoveChecked(i, val);
        case FreeCmd(i) =>
          MeaningsPut(Seen(), i, Gone);
          Free(i);
          NothingShared();
          assert MeaningOf(Gone) == Dead by { GoneIsDead(); }
      }
    }

    ghost function SharedKeys(i: nat): set<int>
      requires i < |bitmaps|
      reads this
    {
      SharedIn(bitmaps[i])
    }

    predicate SharesSlot(i: nat)
      requires i < |bitmaps|
      reads this
    {
      Sharing(bitmaps[i])
    }

    lemma AllowedExists(cmd: Command)
      requires Allowed(Model(), cmd)
      ensures !cmd.CreateCmd? ==> Exists(cmd.i)
    {
    }

    /**
     Every history of creations, copies, flag changes, additions, removals and frees behaves as it would on plain sets:
     nothing done through one bitmap is ever seen through another. The invariant that the counters count is kept all
     along. It stops at the first copy without the flag of a bitmap that shares a container, if there is one; which
     command that is follows from the commands and the sets alone.
     */
    method Run(cmds: seq<Command>, ghost f: Flags) returns (done: nat)
      requires Valid() && AllowedAll(Model(), cmds) && Tracks(f)
      modifies this
      ensures done <= |cmds| && (forall n :: 0 <= n < done ==> !UnsafeAt(old(Model()), f, cmds, n))
      ensures done < |cmds| ==> UnsafeAt(old(Model()), f, cmds, done) && !Valid()
      ensures done == |cmds| ==> Valid() && Model() == Replay(old(Model()), cmds)
    {
      hide Sound, Apply, Allowed, Meanings, Flagged;
      ghost var m := Model();
      done := 0;
      while done < |cmds|
        invariant done <= |cmds| && Valid() && Model() == Replay(m, cmds[..done])
        invariant Tracks(ReplayFlags(m, f, cmds[..done])) && forall n :: 0 <= n < done ==> !UnsafeAt(m, f, cmds, n)
      {
        assert cmds[..done + 1][..done] == cmds[..done];
        assert Allowed(Replay(m, cmds[..done]), cmds[done]);
        ghost var now := ReplayFlags(m, f, cmds[..done]);
        ghost var before := bitmaps;
        AllowedExists(cmds[done]);
        var ok := Do(cmds[done], now);
        if !ok {
          return;
        }
        done := done + 1;
      }
      assert cmds[..done] == cmds;
    }

    /** When the last bitmap is freed, so is the last cell. */
    lemma NothingLeaks()
      requires Valid() && forall j :: 0 <= j < |bitmaps| ==> bitmaps[j].Freed?
      ensures cells == map[]
    {
      NoRefs(bitmaps);
      assert forall a :: a in cells <==> a in Refs(bitmaps) + multiset{};
      assert cells.Keys == {};
    }

    /** The counter of a shared container is the number of live slots that point to it. */
    lemma CounterIsExact(a: nat)
      requires Valid() && a in cells
      ensures |Pointers(bitmaps, a)| == if cells[a].Shared? then cells[a].counter else 1
    {
      hide Pointers, Fine;
      PointersCount(bitmaps, a);
      NonePending(Refs(bitmaps));
    }
  }

  /** The flag set, a value added, a copy, the flag cleared, another copy: the invariant is lost. */
  method CopyAfterClearing() returns (s: Store)
    ensures !s.Valid()
  {
    hide Sound, Views, Sharing, Whole, SharedIn;
    s := new Store();
    var i := s.Create();
    NothingHeld();
    s.SetCopyOnWrite(i, true);
    assert s.Model()[i] == Holds({});
    s.SeesLayout(i);
    var _ := s.AddChecked(i, 0);
    s.Existing(i);
    s.SeesLayout(i);
    assert 0 in s.ValuesOf(i);
    var j := s.Copy(i);
    assert 0 / 0x1_0000 in s.SharedKeys(i);
    SharedInSome(s.bitmaps[i]);
    s.SetCopyOnWrite(i, false);
    var k := s.Copy(i);
  }

  /** A bitmap has the keys that its values need: no container is empty. */
  lemma SlotKeys(keys: seq<u16>, cs: seq<Container>)
    requires Layout(keys, cs)
    ensures |keys| == |cs| && (set k | k in keys :: k as int) == KeysIn(Whole(keys, cs))
  {
    hide At, Elems, Layout, Whole;
    Bitmaps.LayoutIs(keys, cs);
    var s := Whole(keys, cs);
    forall k: int ensures k in (set k | k in keys :: k as int) <==> k in KeysIn(s) {
      if 0 <= k < 0x1_0000 {
        BitmapEquality.KeysFromWhole(keys, cs, k);
        BitmapEquality.AtFromWhole(keys, cs, k);
        KeyNeeded(s, k);
      } else {
        KeysBounded(keys, cs, k);
      }
    }
  }

  lemma KeyNeeded(s: set<int>, k: u16)
    ensures BitmapEquality.UnderKey(s, k) != {} <==> k as int in KeysIn(s)
  {
    if k as int in KeysIn(s) {
      var x :| x in s && x / 0x1_0000 == k;
      assert x == 0x1_0000 * (k as int) + x % 0x1_0000;
      assert x % 0x1_0000 in BitmapEquality.UnderKey(s, k);
    }
    if v :| v in BitmapEquality.UnderKey(s, k) {
      var x := 0x1_0000 * (k as int) + v;
      assert x in s && x / 0x1_0000 == k;
    }
  }

  lemma KeysBounded(keys: seq<u16>, cs: seq<Container>, k: int)
    requires |keys| == |cs| && (k < 0 || k >= 0x1_0000)
    ensures k !in KeysIn(Whole(keys, cs))
  {
    hide InWhole;
  }

  /** The slots copied so far: the key and the typecode of the original, and a container of its own that equals its. */
  ghost predicate Clones(cells: map<nat, Cell>, slots: seq<Slot>, copied: seq<Slot>) {
    && |copied| <= |slots|
    && (forall k :: 0 <= k < |copied| ==> copied[k].key == slots[k].key && copied[k].shared == slots[k].shared)
    && (forall k :: 0 <= k < |copied| ==>
          copied[k].at in cells && cells[copied[k].at] == Plain(Content(cells, slots[k].at)))
  }

  /** One slot more, at a new address. */
  lemma CloneSlot(cells: map<nat, Cell>, bitmaps: seq<Bitmap>, i: nat, copied: seq<Slot>, b: nat)
    requires i < |bitmaps| && bitmaps[i].Live? && Sound(cells, bitmaps, Held(Live(copied))) && b !in cells
    requires Clones(cells, bitmaps[i].slots, copied) && |copied| < |bitmaps[i].slots|
    ensures var s := bitmaps[i].slots[|copied|];
      var copied', cells' := copied + [Slot(s.key, s.shared, b)], cells[b := Plain(Content(cells, s.at))];
      && Sound(cells', bitmaps, Held(Live(copied'))) && Views(cells', bitmaps) == Views(cells, bitmaps)
      && Clones(cells', bitmaps[i].slots, copied')
  {
    hide Counted, Agrees, Held, Refs, Layout;
    var slots := bitmaps[i].slots;
    var s := slots[|copied|];
    var c := Content(cells, s.at);
    var t := Slot(s.key, s.shared, b);
    var copied', cells' := copied + [t], cells[b := Plain(c)];
    assert copied'[..|copied|] == copied && copied'[..|copied| + 1] == copied';
    HeldNext(copied', |copied|);
    AddedCounts(cells, Refs(bitmaps) + Held(Live(copied)), b, c);
    Nested(Refs(bitmaps), Held(Live(copied)), multiset{b});
    AgreesLess(cells, cells', Refs(bitmaps) + Held(Live(copied)), Refs(bitmaps));
    AllSame(cells, cells', bitmaps);
    assert BitmapFine(cells, bitmaps[i]);
  }

  /** The finished clone becomes a bitmap: a right one unless a typecode says what is no longer so. */
  lemma CloneSound(cells: map<nat, Cell>, bitmaps: seq<Bitmap>, i: nat, copied: seq<Slot>)
    requires i < |bitmaps| && bitmaps[i].Live? && Sound(cells, bitmaps, Held(Live(copied)))
    requires Clones(cells, bitmaps[i].slots, copied) && |copied| == |bitmaps[i].slots|
    ensures Sound(cells, bitmaps + [Live(copied)], multiset{}) <==> !Sharing(bitmaps[i])
    ensures Sharing(Live(copied)) <==> Sharing(bitmaps[i])
    ensures Views(cells, bitmaps + [Live(copied)]) == Views(cells, bitmaps) + [Views(cells, bitmaps)[i]]
  {
    hide Counted, Held, Refs, Layout;
    var slots, bs := bitmaps[i].slots, bitmaps + [Live(copied)];
    assert BitmapFine(cells, bitmaps[i]);
    assert Keys(copied) == Keys(slots) && Contents(cells, copied) == Contents(cells, slots);
    RefsSnoc(bitmaps, Live(copied));
    NonePending(Refs(bs));
    if Sharing(bitmaps[i]) {
      var k :| 0 <= k < |slots| && slots[k].shared;
      assert copied[k].shared;
      assert !BitmapFine(cells, bs[|bitmaps|]);
    } else {
      assert BitmapFine(cells, bs[|bitmaps|]);
      forall j | 0 <= j < |bs| ensures BitmapFine(cells, bs[j]) { assert j < |bitmaps| ==> bs[j] == bitmaps[j]; }
    }
  }

  lemma NothingShared()
    ensures SharedIn(Live([])) == {} && SharedIn(Freed) == {}
  {
  }

  lemma FineSlot(cells: map<nat, Cell>, slots: seq<Slot>, k: nat)
    requires Fine(cells, slots) && k < |slots|
    ensures slots[k].at in cells && (slots[k].shared <==> cells[slots[k].at].Shared?) && Good(cells[slots[k].at].c)
    ensures Contents(cells, slots)[k] == cells[slots[k].at].c
  {
    hide Good;
    Bitmaps.LayoutIs(Keys(slots), Contents(cells, slots));
    Bitmaps.GoodOf(Contents(cells, slots), k);
  }

  lemma FewerCells(cells: map<nat, Cell>, a: nat)
    requires a in cells
    ensures forall b :: b in Released(cells, a) ==> b in cells
  {
  }

  /** The store after slot `k` of bitmap `i` has been given another pointer or another container. */
  lemma PutSound(cells: map<nat, Cell>, bitmaps: seq<Bitmap>, pending: multiset<nat>,
                 cells': map<nat, Cell>, i: nat, k: nat, s: Slot, pending': multiset<nat>)
    requires Sound(cells, bitmaps, pending) && i < |bitmaps| && bitmaps[i].Live? && k < |bitmaps[i].slots|
    requires Agrees(cells, cells', Others(bitmaps, i, k, pending))
    requires Counted(cells', Others(bitmaps, i, k, pending') + multiset{s.at})
    requires s.key == bitmaps[i].slots[k].key && s.at in cells'
    requires (s.shared <==> cells'[s.at].Shared?) && Good(cells'[s.at].c)
    ensures var slots := bitmaps[i].slots;
      Sound(cells', bitmaps[i := Live(slots[k := s])], pending') &&
      Views(cells', bitmaps[i := Live(slots[k := s])])
        == Views(cells, bitmaps)[i := View(Keys(slots), Contents(cells, slots)[k := cells'[s.at].c])]
  {
    hide Counted, Agrees, Held, Refs, Fine, Without, Good;
    var slots := bitmaps[i].slots;
    OthersWith(bitmaps, i, k, pending', s);
    OthersParts(bitmaps, i, k, pending);
    AgreesLess(cells, cells', Others(bitmaps, i, k, pending), Held(Live(Without(slots, k))));
    AgreesLess(cells, cells', Others(bitmaps, i, k, pending), Refs(bitmaps[i := Freed]));
    assert BitmapFine(cells, bitmaps[i]);
    PutFine(cells, cells', slots, k, s);
    ChangeIsLocal(cells, bitmaps, pending, cells', i, Live(slots[k := s]), pending');
  }

  lemma OthersParts(bitmaps: seq<Bitmap>, i: nat, k: nat, pending: multiset<nat>)
    requires i < |bitmaps| && bitmaps[i].Live? && k < |bitmaps[i].slots|
    ensures Held(Live(Without(bitmaps[i].slots, k))) <= Others(bitmaps, i, k, pending)
    ensures Refs(bitmaps[i := Freed]) <= Others(bitmaps, i, k, pending)
  {
    hide Held, Refs, Without;
  }

  lemma Nested(r: multiset<nat>, p: multiset<nat>, s: multiset<nat>)
    ensures r + (p + s) == (r + p) + s && r <= r + p
  {
  }

  lemma NonePending(r: multiset<nat>)
    ensures r + multiset{} == r
  {
  }

  lemma InsertRefs(bitmaps: seq<Bitmap>, i: nat, k: nat, s: Slot)
    requires i < |bitmaps| && bitmaps[i].Live? && k <= |bitmaps[i].slots|
    ensures var slots := bitmaps[i].slots;
      Refs(bitmaps[i := Live(slots[..k] + [s] + slots[k..])]) == Refs(bitmaps) + multiset{s.at}
    ensures Held(bitmaps[i]) <= Refs(bitmaps) && Refs(bitmaps[i := Freed]) <= Refs(bitmaps)
  {
    hide Held, Refs;
    var slots := bitmaps[i].slots;
    var b := Live(slots[..k] + [s] + slots[k..]);
    RefsPut(bitmaps, i, b);
    RefsPut(bitmaps, i, Freed);
    HeldFreed();
    HeldInsert(slots, k, s);
    HeldInside(bitmaps, i);
    PartOf(Refs(bitmaps[i := Freed]), Held(bitmaps[i]), Refs(bitmaps));
    Cancel(Refs(bitmaps[i := b]), Refs(bitmaps), multiset{s.at}, Held(bitmaps[i]));
  }

  lemma PartOf(p: multiset<nat>, h: multiset<nat>, q: multiset<nat>)
    requires p + h == q + multiset{}
    ensures p <= q
  {
    forall x ensures p[x] <= q[x] { assert (p + h)[x] == (q + multiset{})[x]; }
  }

  lemma Cancel(p: multiset<nat>, q: multiset<nat>, s: multiset<nat>, h: multiset<nat>)
    requires p + h == q + (h + s)
    ensures p == q + s
  {
    forall x ensures p[x] == (q + s)[x] { assert (p + h)[x] == (q + (h + s))[x]; }
  }

  lemma HeldInsert(slots: seq<Slot>, k: nat, s: Slot)
    requires k <= |slots|
    ensures Held(Live(slots[..k] + [s] + slots[k..])) == Held(Live(slots)) + multiset{s.at}
  {
    var t := slots[..k] + [s] + slots[k..];
    assert t[..k] + t[k + 1..] == slots && t[k := s] == t;
    HeldSplit(t, k);
  }

  lemma DoubledBounded(cells: map<nat, Cell>, a: nat, b: nat)
    requires a in cells
    ensures forall x :: x in Doubled(cells, a, b).0 ==> x in cells || x == b
  {
  }

  lemma OthersMore(bitmaps: seq<Bitmap>, i: nat, k: nat, pending: multiset<nat>, a: nat)
    requires i < |bitmaps| && bitmaps[i].Live? && k < |bitmaps[i].slots|
    ensures Others(bitmaps, i, k, pending + multiset{a}) == Others(bitmaps, i, k, pending) + multiset{a}
  {
    hide Held, Refs, Without;
  }

  lemma HeldNothing()
    ensures Held(Live([])) == multiset{}
  {
  }

  lemma HeldNext(slots: seq<Slot>, k: nat)
    requires k < |slots|
    ensures Held(Live(slots[..k + 1])) == Held(Live(slots[..k])) + multiset{slots[k].at}
  {
    assert Addresses(slots[..k + 1]) == Addresses(slots[..k]) + [slots[k].at];
  }

  lemma HeldTail(slots: seq<Slot>, k: nat)
    requires k < |slots|
    ensures Held(Live(slots[k..])) == Held(Live(slots[k + 1..])) + multiset{slots[k].at}
  {
    assert Addresses(slots[k..]) == [slots[k].at] + Addresses(slots[k + 1..]);
  }

  /** The pending pointers go into the new bitmap. */
  lemma CopySound(cells: map<nat, Cell>, bitmaps: seq<Bitmap>, i: nat)
    requires i < |bitmaps| && Sound(cells, bitmaps, Held(bitmaps[i]))
    ensures Sound(cells, bitmaps + [bitmaps[i]], multiset{})
    ensures Views(cells, bitmaps + [bitmaps[i]]) == Views(cells, bitmaps) + [Views(cells, bitmaps)[i]]
  {
    hide Counted, Held, Refs, BitmapFine;
    RefsSnoc(bitmaps, bitmaps[i]);
    NonePending(Refs(bitmaps + [bitmaps[i]]));
  }

  /** The pointers of a bitmap that is given up are pending. */
  lemma FreedSound(cells: map<nat, Cell>, bitmaps: seq<Bitmap>, i: nat)
    requires i < |bitmaps| && Sound(cells, bitmaps, multiset{})
    ensures Sound(cells, bitmaps[i := Freed], Held(bitmaps[i]))
    ensures Views(cells, bitmaps[i := Freed]) == Views(cells, bitmaps)[i := Gone]
  {
    hide Counted, Held, Refs, Fine;
    RefsPut(bitmaps, i, Freed);
    HeldFreed();
    NonePending(Refs(bitmaps));
  }

  lemma AllSame(cells: map<nat, Cell>, cells': map<nat, Cell>, bitmaps: seq<Bitmap>)
    requires forall j :: 0 <= j < |bitmaps| ==> BitmapFine(cells, bitmaps[j])
    requires Agrees(cells, cells', Refs(bitmaps))
    ensures forall j :: 0 <= j < |bitmaps| ==> BitmapFine(cells', bitmaps[j])
    ensures Views(cells', bitmaps) == Views(cells, bitmaps)
  {
    hide Held, Refs, Agrees, BitmapFine;
    forall j | 0 <= j < |bitmaps|
      ensures BitmapFine(cells', bitmaps[j]) && ViewOf(cells', bitmaps[j]) == ViewOf(cells, bitmaps[j]) {
      HeldInside(bitmaps, j);
      AgreesLess(cells, cells', Refs(bitmaps), Held(bitmaps[j]));
      LooksSame(cells, cells', bitmaps[j]);
    }
  }
}
