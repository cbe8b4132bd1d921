/** The binary heap behind the union of many bitmaps: the smallest bitmap comes first. */
module PriorityQueues {
  import opened RoaringArrays
  import Encoding
  import Serialization

  datatype Element = Element(size: nat, isTemporary: bool, bitmap: RoaringArray)

  function Parent(c: int): int
    requires c > 0
  {
    (c - 1) / 2
  }

  /** No element at index `lo` or later is larger than its children. */
  ghost predicate HeapFrom(s: seq<Element>, lo: int) {
    forall c :: 0 < c < |s| && lo <= Parent(c) ==> s[Parent(c)].size <= s[c].size
  }

  ghost predicate Heap(s: seq<Element>) { HeapFrom(s, 0) }

  /** The root of a heap is a minimum. */
  lemma {:induction false} RootIsSmallest(s: seq<Element>, i: nat)
    requires Heap(s) && i < |s|
    ensures s[0].size <= s[i].size
    decreases i
  {
    if i > 0 { RootIsSmallest(s, Parent(i)); }
  }

  lemma RootIsMinimum(s: seq<Element>)
    requires Heap(s) && |s| > 0
    ensures forall e :: e in s ==> s[0].size <= e.size
  {
    hide Heap;
    forall e | e in s ensures s[0].size <= e.size {
      var i :| 0 <= i < |s| && s[i] == e;
      RootIsSmallest(s, i);
    }
  }

  /** Exchanging two elements conserves the multiset. */
  lemma SwapConserves(s: seq<Element>, i: nat, j: nat)
    requires i < |s| && j < |s|
    ensures multiset(s[i := s[j]][j := s[i]]) == multiset(s)
  {
  }

  /** As `HeapFrom`, where the element at the hole `h` is not yet compared with its children. */
  ghost predicate HeapBelow(s: seq<Element>, lo: nat, h: nat) {
    && lo <= h < |s|
    && (forall c :: 0 < c < |s| && lo <= Parent(c) && Parent(c) != h ==> s[Parent(c)].size <= s[c].size)
    && (forall c :: 0 < c < |s| && Parent(c) == h && h > lo ==> s[Parent(h)].size <= s[c].size)
    && (h > lo ==> lo <= Parent(h))
  }

  /** Moving the smaller child `l` into the hole moves the hole down. */
  lemma HoleDown(s: seq<Element>, lo: nat, h: nat, l: nat)
    requires HeapBelow(s, lo, h) && 2 * h + 1 <= l <= 2 * h + 2 && l < |s| && s[l].size < s[h].size
    requires forall c :: 0 < c < |s| && Parent(c) == h ==> s[l].size <= s[c].size
    ensures HeapBelow(s[h := s[l]][l := s[h]], lo, l)
  {
    assert Parent(l) == h;
  }

  lemma HoleFilled(s: seq<Element>, lo: nat, h: nat)
    requires HeapBelow(s, lo, h) && forall c :: 0 < c < |s| && Parent(c) == h ==> s[h].size <= s[c].size
    ensures HeapFrom(s, lo)
  {
  }

  /** As `Heap`, where the element at the hole `h` is not yet compared with its parent. */
  ghost predicate HeapAbove(s: seq<Element>, h: nat) {
    && h < |s|
    && (forall c :: 0 < c < |s| && c != h ==> s[Parent(c)].size <= s[c].size)
    && (forall c :: 0 < c < |s| && Parent(c) == h && h > 0 ==> s[Parent(h)].size <= s[c].size)
  }

  /** Moving the larger parent into the hole moves the hole up. */
  lemma HoleUp(s: seq<Element>, h: nat)
    requires HeapAbove(s, h) && h > 0 && s[h].size < s[Parent(h)].size
    ensures HeapAbove(s[h := s[Parent(h)]][Parent(h) := s[h]], Parent(h))
  {
  }

  lemma HoleClosed(s: seq<Element>, h: nat)
    requires HeapAbove(s, h) && (h > 0 ==> s[Parent(h)].size <= s[h].size)
    ensures Heap(s)
  {
  }

  /** One more element at the end, in the hole. */
  lemma HoleAtEnd(s: seq<Element>, t: Element)
    requires Heap(s)
    ensures HeapAbove(s + [t], |s|)
  {
  }

  lemma HoleAtTop(s: seq<Element>, lo: nat)
    requires HeapFrom(s, lo + 1) && lo < |s|
    ensures HeapBelow(s, lo, lo)
  {
  }

  /** The buffer `v` is the queue `w` but for the stale element at the hole. */
  predicate Holed(v: seq<Element>, h: nat, w: seq<Element>) {
    |v| == |w| && forall k :: 0 <= k < |v| && k != h ==> v[k] == w[k]
  }

  lemma HoleMoves(v: seq<Element>, h: nat, l: nat, w: seq<Element>)
    requires Holed(v, h, w) && h < |w| && l < |w| && l != h
    ensures v[l] == w[l] && Holed(v[h := v[l]], l, w[h := w[l]][l := w[h]])
  {
  }

  lemma HoleFills(v: seq<Element>, h: nat, w: seq<Element>)
    requires Holed(v, h, w) && h < |w|
    ensures v[h := w[h]] == w
  {
  }

  class Queue {
    var elements: array<Element>
    var size: nat

    ghost predicate Fits()
      reads this
    {
      size <= elements.Length
    }

    ghost function View(): seq<Element>
      requires Fits()
      reads this, elements
    {
      elements[..size]
    }

    ghost predicate Valid()
      reads this, elements
    {
      Fits() && Heap(View())
    }

    /** `create_pq` before the elements are put in order. */
    constructor (arr: seq<RoaringArray>)
      requires |arr| > 0 && forall i :: 0 <= i < |arr| ==> arr[i].Fits()
      ensures Fits() && fresh(elements) && size == |arr| && elements.Length == |arr|
      ensures forall i :: 0 <= i < size ==>
        elements[i] == Element(Encoding.PortableSize(arr[i].Slots()), false, arr[i])
    {
      elements := new Element[|arr|](_ => Element(0, false, arr[0]));
      size := |arr|;
      new;
      var i := 0;
      while i < |arr|
        invariant i <= |arr| && elements.Length == size == |arr| && fresh(elements)
        invariant forall j :: 0 <= j < i ==>
          elements[j] == Element(Encoding.PortableSize(arr[j].Slots()), false, arr[j])
      {
        hide Encoding.PortableSize;
        var n := Serialization.PortableSizeInBytes(arr[i]);
        elements[i] := Element(n, false, arr[i]);
        i := i + 1;
      }
    }

    /** `pq_add`: an element moves up past larger parents. */
    method Add(t: Element)
      requires Valid() && size < elements.Length
      modifies this`size, elements
      ensures Valid() && size == old(size) + 1 && multiset(View()) == old(multiset(View())) + multiset{t}
    {
      hide Heap, HeapFrom, HeapAbove;
      ghost var s := View();
      var i := size;
      elements[size] := t;
      size := size + 1;
      ghost var w := s + [t];
      HoleAtEnd(s, t);
      while i > 0
        invariant 0 <= i < size == |s| + 1 == |w| && Fits() && Holed(View(), i, w) && w[i] == t
        invariant multiset(w) == multiset(s + [t]) && HeapAbove(w, i)
        decreases i
      {
        var p := (i - 1) / 2;
        var ap := elements[p];
        assert ap == View()[p] && p == Parent(i);
        if !(t.size < ap.size) {
          break;
        }
        HoleUp(w, i);
        SwapConserves(w, i, p);
        HoleMoves(View(), i, p, w);
        elements[i] := ap;
        w := w[i := w[p]][p := w[i]];
        i := p;
      }
      HoleClosed(w, i);
      HoleFills(View(), i, w);
      elements[i] := t;
    }

    /** `percolate_down`: an element moves down past smaller children. */
    method PercolateDown(start: nat)
      requires Fits() && start < size && HeapFrom(View(), start + 1)
      modifies elements
      ensures HeapFrom(View(), start) && multiset(View()) == old(multiset(View()))
    {
      hide HeapFrom, HeapBelow;
      ghost var s := View();
      var hsize := size / 2;
      var i := start;
      var ai := elements[i];
      ghost var w := s;
      HoleAtTop(s, start);
      while i < hsize
        invariant start <= i < size == |w| && Fits() && Holed(View(), i, w) && w[i] == ai
        invariant multiset(w) == multiset(s) && HeapBelow(w, start, i)
        decreases size - i
      {
        var l := 2 * i + 1;
        var r := l + 1;
        var bestc := elements[l];
        if r < size {
          if elements[r].size < bestc.size {
            l := r;
            bestc := elements[r];
          }
        }
        assert bestc == View()[l] && View()[2 * i + 1] == elements[2 * i + 1];
        assert 2 * i + 2 < size ==> View()[2 * i + 2] == elements[2 * i + 2];
        SmallerChild(w, i, l);
        if !(bestc.size < ai.size) {
          break;
        }
        HoleDown(w, start, i, l);
        SwapConserves(w, i, l);
        HoleMoves(View(), i, l, w);
        elements[i] := bestc;
        w := w[i := w[l]][l := w[i]];
        i := l;
      }
      HoleFilled(w, start, i);
      HoleFills(View(), i, w);
      elements[i] := ai;
    }

    /** `pq_poll`: takes out a smallest element. */
    method Poll() returns (ans: Element)
      requires Valid() && size > 0
      modifies this`size, elements
      ensures Valid() && size == old(size) - 1
      ensures ans in old(View()) && multiset(View()) == old(multiset(View())) - multiset{ans}
      ensures forall e :: e in old(View()) ==> ans.size <= e.size
    {
      hide HeapFrom, Shortened, Heap;
      ghost var s := View();
      ans := elements[0];
      RootIsMinimum(s);
      LastToRoot(s);
      if size > 1 {
        size := size - 1;
        elements[0] := elements[size];
        ShortenedIs(s, View());
        PercolateDown(0);
        HeapIs(View());
      } else {
        size := size - 1;
        ShortenedIs(s, View());
      }
    }
  }

  /** The child that `percolate_down` picks is the smaller one. */
  lemma SmallerChild(s: seq<Element>, h: nat, l: nat)
    requires 2 * h + 1 < |s| && l < |s| && (l == 2 * h + 1 || l == 2 * h + 2)
    requires s[l].size <= s[2 * h + 1].size && (2 * h + 2 < |s| ==> s[l].size <= s[2 * h + 2].size)
    ensures forall c :: 0 < c < |s| && Parent(c) == h ==> s[l].size <= s[c].size
  {
  }

  /** The last element takes the place of the root. */
  function Shortened(s: seq<Element>): seq<Element>
    requires |s| > 0
  {
    s[0 := s[|s| - 1]][..|s| - 1]
  }

  lemma ShortenedIs(s: seq<Element>, v: seq<Element>)
    requires |v| == |s| - 1 && (|v| > 0 ==> v[0] == s[|s| - 1]) && forall k :: 0 < k < |v| ==> v[k] == s[k]
    ensures v == Shortened(s)
  {
  }

  lemma HeapIs(s: seq<Element>)
    ensures HeapFrom(s, 0) <==> Heap(s)
  {
  }

  lemma LastToRoot(s: seq<Element>)
    requires Heap(s) && |s| > 0
    ensures HeapFrom(Shortened(s), 1) && multiset(Shortened(s)) == multiset(s) - multiset{s[0]} && s[0] in s
    ensures |s| == 1 ==> Heap(Shortened(s))
  {
    hide Heap, HeapFrom, Shortened;
    RootRemoved(s);
    ShortenedHeap(s);
  }

  lemma ShortenedHeap(s: seq<Element>)
    requires Heap(s) && |s| > 0
    ensures HeapFrom(Shortened(s), 1) && (|s| == 1 ==> Heap(Shortened(s)))
  {
  }

  lemma RootRemoved(s: seq<Element>)
    requires |s| > 0
    ensures multiset(Shortened(s)) == multiset(s) - multiset{s[0]}
  {
    var n := |s| - 1;
    if n > 0 {
      var mid := s[1..n];
      assert Shortened(s) == [s[n]] + mid && s == [s[0]] + mid + [s[n]];
    } else {
      assert Shortened(s) == [] && s == [s[0]];
    }
  }

  /** `create_pq` */
  method CreateQueue(arr: seq<RoaringArray>) returns (pq: Queue, ghost items: seq<Element>)
    requires |arr| > 0 && forall i :: 0 <= i < |arr| ==> arr[i].Fits()
    ensures fresh(pq) && fresh(pq.elements) && pq.Valid() && pq.size == |arr| == pq.elements.Length == |items|
    ensures multiset(pq.View()) == multiset(items)
    ensures forall i :: 0 <= i < |arr| ==> items[i].bitmap == arr[i] && !items[i].isTemporary
    ensures forall i :: 0 <= i < |arr| ==> items[i].size == Encoding.PortableSize(arr[i].Slots())
  {
    pq := new Queue(arr);
    items := pq.View();
    var length := |arr|;
    var i: int := length / 2;
    LeavesAreHeaps(items);
    while i >= 0
      invariant -1 <= i <= length / 2 && fresh(pq) && fresh(pq.elements) && pq.Fits() && pq.size == length
      invariant pq.elements.Length == length
      invariant HeapFrom(pq.View(), i + 1) && multiset(pq.View()) == multiset(items)
      decreases i
    {
      pq.PercolateDown(i);
      i := i - 1;
    }
  }

  lemma LeavesAreHeaps(s: seq<Element>)
    ensures HeapFrom(s, |s| / 2 + 1)
  {
  }
}
