/** The union of many bitmaps with a heap: the two smallest are joined until one is left, which is then repaired. */
module UnionHeap {
  import opened Containers
  import opened Slots
  import opened RoaringArrays
  import opened BitmapOps
  import opened LazyBitmaps
  import opened PriorityQueues
  import ContainerOps
  import Serialization

  /** The objects that a queued temporary owns; inputs belong to the caller. */
  ghost function Owned(e: Element): set<object>
    reads e.bitmap
  {
    if e.isTemporary then {e.bitmap, e.bitmap.keys, e.bitmap.containers} else {}
  }

  ghost function Objects(e: Element): set<object>
    reads e.bitmap
  {
    {e.bitmap, e.bitmap.keys, e.bitmap.containers}
  }

  /** Nothing that `x` owns is used by `d`. */
  ghost predicate Spares(x: Element, d: Element)
    reads x.bitmap, d.bitmap
  {
    Owned(x) !! Objects(d)
  }

  ghost function Queued(m: multiset<Element>): set<object> { set e | e in m :: e.bitmap }

  ghost function Buffers(m: multiset<Element>): set<object>
    reads Queued(m)
  {
    (set e | e in m :: e.bitmap.keys as object) + (set e | e in m :: e.bitmap.containers as object)
  }

  ghost function AllOwned(m: multiset<Element>): set<object>
    reads Queued(m)
  {
    set e, o | e in m && o in Owned(e) :: o
  }

  /** What a temporary owns is its own: no other element of the queue uses it. */
  ghost predicate Apart(m: multiset<Element>)
    reads Queued(m)
  {
    && (forall e :: e in m && e.isTemporary ==> m[e] == 1)
    && (forall e1, e2 :: e1 in m && e2 in m && e1 != e2 ==> Spares(e1, e2))
  }

  ghost predicate Lazy(m: multiset<Element>)
    reads Queued(m), Buffers(m)
  {
    forall e :: e in m ==> LazyBitmap(e.bitmap)
  }

  ghost predicate Ready(m: multiset<Element>)
    reads Queued(m), Buffers(m)
  {
    Apart(m) && Lazy(m)
  }

  ghost predicate Has(e: Element, v: int)
    reads e.bitmap, e.bitmap.keys, e.bitmap.containers
  {
    e.bitmap.Fits() && v in e.bitmap.Values()
  }

  /** `v` lies in the union of the bitmaps in the queue. */
  ghost predicate InUnion(m: multiset<Element>, v: int)
    reads Queued(m), Buffers(m)
  {
    exists e :: e in m && Has(e, v)
  }

  /** One of the four ways to join the two smallest bitmaps. */
  method Join(x1: Element, x2: Element) returns (e: Element)
    requires LazyBitmap(x1.bitmap) && LazyBitmap(x2.bitmap)
    requires Spares(x1, x2) && Spares(x2, x1)
    modifies Owned(x1), Owned(x2)
    ensures e.isTemporary && LazyBitmap(e.bitmap)
    ensures e.bitmap.Values() == old(x1.bitmap.Values()) + old(x2.bitmap.Values())
    ensures forall o :: o in Owned(e) ==> fresh(o) || o in old(Owned(x1) + Owned(x2))
  {
    hide LazyLayout, Whole;
    if x1.isTemporary && x2.isTemporary {
      var newb := LazyOrFromLazyInputs(x1.bitmap, x2.bitmap);
      var temporary := !(newb == x1.bitmap && newb == x2.bitmap);
      var bsize := Serialization.PortableSizeInBytes(newb);
      e := Element(bsize, temporary, newb);
    } else if x2.isTemporary {
      LazyOrInplace(x2.bitmap, x1.bitmap);
      ContainerOps.UnionCommutes(old(x1.bitmap.Values()), old(x2.bitmap.Values()));
      var bsize := Serialization.PortableSizeInBytes(x2.bitmap);
      e := x2.(size := bsize);
    } else if x1.isTemporary {
      LazyOrInplace(x1.bitmap, x2.bitmap);
      var bsize := Serialization.PortableSizeInBytes(x1.bitmap);
      e := x1.(size := bsize);
    } else {
      var newb := LazyOr(x1.bitmap, x2.bitmap);
      var bsize := Serialization.PortableSizeInBytes(newb);
      e := Element(bsize, true, newb);
    }
  }

  lemma Others(m: multiset<Element>, rest: multiset<Element>, x1: Element, x2: Element)
    requires Apart(m) && m == rest + multiset{x1, x2}
    ensures Spares(x1, x2) && Spares(x2, x1)
    ensures forall d :: d in rest ==> Spares(x1, d) && Spares(x2, d)
  {
    assert x1 in m && x2 in m && (x1 == x2 ==> m[x1] >= 2);
    forall d | d in rest ensures Spares(x1, d) && Spares(x2, d) {
      assert d in m && (d == x1 ==> m[x1] >= 2) && (d == x2 ==> m[x2] >= 2);
    }
  }

  lemma RestApart(m: multiset<Element>, rest: multiset<Element>)
    requires Ready(m) && rest <= m
    ensures Ready(rest)
  {
    hide LazyBitmap;
    forall e | e in rest ensures e in m && LazyBitmap(e.bitmap) && (e.isTemporary ==> rest[e] == 1) {
      assert 0 < rest[e] <= m[e];
    }
  }

  /** A new temporary beside elements that share nothing with it. */
  lemma OneMore(rest: multiset<Element>, e: Element)
    requires Ready(rest) && e.isTemporary && LazyBitmap(e.bitmap)
    requires forall d :: d in rest ==> Spares(e, d)
    ensures Ready(rest + multiset{e})
    ensures forall v :: InUnion(rest + multiset{e}, v) <==> InUnion(rest, v) || Has(e, v)
  {
    hide LazyBitmap, Has;
    var m := rest + multiset{e};
    forall d | d in rest ensures d != e { assert d.bitmap in Objects(d); }
    forall d ensures d in m <==> d in rest || d == e {}
    forall d1, d2 | d1 in m && d2 in m && d1 != d2 ensures Spares(d1, d2) {
      if d1 == e { assert Owned(e) <= Objects(e); } else if d2 == e { assert Owned(d1) <= Objects(d1); }
    }
  }

  lemma UnionSplits(m: multiset<Element>, rest: multiset<Element>, x1: Element, x2: Element)
    requires Ready(m) && m == rest + multiset{x1, x2}
    ensures Ready(rest) && LazyBitmap(x1.bitmap) && LazyBitmap(x2.bitmap)
    ensures forall v :: InUnion(m, v) <==> InUnion(rest, v) || Has(x1, v) || Has(x2, v)
  {
    hide LazyBitmap, Has, Apart;
    RestApart(m, rest);
    assert x1 in m && x2 in m;
    forall d ensures d in m <==> d in rest || d == x1 || d == x2 {}
  }

  /** The join beside the other bitmaps of a queue, which keep all they have. */
  method JoinBeside(ghost rest: multiset<Element>, x1: Element, x2: Element) returns (e: Element)
    requires LazyBitmap(x1.bitmap) && LazyBitmap(x2.bitmap)
    requires Spares(x1, x2) && Spares(x2, x1)
    requires forall d :: d in rest ==> Spares(x1, d) && Spares(x2, d)
    modifies Owned(x1), Owned(x2)
    ensures e.isTemporary && LazyBitmap(e.bitmap)
    ensures e.bitmap.Values() == old(x1.bitmap.Values()) + old(x2.bitmap.Values())
    ensures forall d :: d in rest ==> unchanged(d.bitmap) && unchanged(d.bitmap.keys) && unchanged(d.bitmap.containers)
    ensures forall d :: d in rest ==> Spares(e, d)
    ensures forall o :: o in Owned(e) ==> fresh(o) || o in old(Owned(x1) + Owned(x2))
    ensures forall v :: Has(e, v) <==> old(Has(x1, v)) || old(Has(x2, v))
  {
    hide LazyLayout, Owned;
    e := Join(x1, x2);
    forall d | d in rest ensures unchanged(d.bitmap) && unchanged(d.bitmap.keys) && unchanged(d.bitmap.containers) {
      assert d.bitmap in old(Objects(d)) && d.bitmap.keys in old(Objects(d)) && d.bitmap.containers in old(Objects(d));
    }
    forall d | d in rest ensures Spares(e, d) {
      assert Objects(d) == old(Objects(d));
    }
  }

  /** The join inside a queue: it stays ready, and the union of its bitmaps is the same. */
  method JoinStep(ghost m: multiset<Element>, ghost rest: multiset<Element>, x1: Element, x2: Element)
    returns (e: Element)
    requires Ready(m) && m == rest + multiset{x1, x2}
    modifies Owned(x1), Owned(x2)
    ensures e.isTemporary && Ready(rest + multiset{e})
    ensures forall v :: InUnion(rest + multiset{e}, v) <==> old(InUnion(m, v))
    ensures forall o :: o in Owned(e) ==> fresh(o) || o in old(Owned(x1) + Owned(x2))
    ensures forall d :: d in rest ==> Objects(d) == old(Objects(d)) && Owned(d) == old(Owned(d))
  {
    hide LazyBitmap, Apart, Lazy, Owned, Objects, Spares, Has, InUnion;
    Others(m, rest, x1, x2);
    UnionSplits(m, rest, x1, x2);
    e := JoinBeside(rest, x1, x2);
    StillReady(rest);
    OneMore(rest, e);
  }

  twostate lemma StillReady(rest: multiset<Element>)
    requires old(Ready(rest))
    requires forall d :: d in rest ==> unchanged(d.bitmap) && unchanged(d.bitmap.keys) && unchanged(d.bitmap.containers)
    ensures Ready(rest)
    ensures forall d :: d in rest ==> Objects(d) == old(Objects(d)) && Owned(d) == old(Owned(d))
    ensures forall v :: InUnion(rest, v) <==> old(InUnion(rest, v))
  {
    hide LazyLayout;
  }

  /** The queue's own buffers are not those of a bitmap. */
  ghost predicate Aside(pq: Queue, m: multiset<Element>)
    reads pq, Queued(m)
  {
    forall e :: e in m ==> pq !in Objects(e) && pq.elements !in Objects(e)
  }

  lemma OwnedAll(m: multiset<Element>)
    ensures forall x :: x in m ==> Owned(x) <= AllOwned(m)
  {
    hide Owned;
  }

  lemma OwnedByOne(rest: multiset<Element>, e: Element)
    ensures AllOwned(rest + multiset{e}) == AllOwned(rest) + Owned(e)
  {
    hide Owned;
    forall d ensures d in rest + multiset{e} <==> d in rest || d == e {}
  }

  lemma OwnedOfAll(m: multiset<Element>, s: set<object>)
    requires forall d :: d in m ==> Owned(d) <= s
    ensures AllOwned(m) <= s
  {
    hide Owned;
  }

  /** The removal of two elements. */
  lemma TwoOut(m: multiset<Element>, m1: multiset<Element>, m2: multiset<Element>, x1: Element, x2: Element)
    requires x1 in m && m1 == m - multiset{x1} && x2 in m1 && m2 == m1 - multiset{x2}
    ensures m == m2 + multiset{x1, x2}
  {
    OneBack(m, x1);
    OneBack(m1, x2);
    Regroup(m2, x1, x2);
  }

  lemma OneBack<T>(m: multiset<T>, x: T)
    requires x in m
    ensures m == (m - multiset{x}) + multiset{x}
  {
  }

  lemma Regroup<T>(m: multiset<T>, x: T, y: T)
    ensures m + multiset{y} + multiset{x} == m + multiset{x, y}
  {
  }

  /** Takes out the smallest bitmap; the bitmaps stay as they are. */
  method DrawOne(pq: Queue, ghost m: multiset<Element>) returns (x: Element)
    requires pq.Valid() && pq.size > 0 && Ready(m) && Aside(pq, m)
    modifies pq`size, pq.elements
    ensures pq.Valid() && pq.size == old(pq.size) - 1
    ensures x in old(multiset(pq.View())) && multiset(pq.View()) == old(multiset(pq.View())) - multiset{x}
    ensures Ready(m) && Aside(pq, m)
    ensures forall e :: e in m ==> Objects(e) == old(Objects(e)) && Owned(e) == old(Owned(e))
    ensures forall v :: InUnion(m, v) <==> old(InUnion(m, v))
  {
    hide Ready, Heap, InUnion;
    x := pq.Poll();
    forall e | e in m ensures unchanged(e.bitmap) && unchanged(e.bitmap.keys) && unchanged(e.bitmap.containers) {
      assert pq !in Objects(e) && pq.elements !in Objects(e);
    }
    StillReady(m);
  }

  /** Takes out the two smallest bitmaps. */
  method Draw(pq: Queue, ghost m: multiset<Element>) returns (x1: Element, x2: Element, ghost rest: multiset<Element>)
    requires pq.Valid() && pq.size > 1 && m == multiset(pq.View()) && Ready(m) && Aside(pq, m)
    modifies pq`size, pq.elements
    ensures pq.Valid() && pq.size == old(pq.size) - 2 && rest == multiset(pq.View()) && m == rest + multiset{x1, x2}
    ensures x1 in m && x2 in m && rest <= m && Ready(m) && Aside(pq, m)
    ensures forall v :: InUnion(m, v) <==> old(InUnion(m, v))
    ensures forall e :: e in m ==> Objects(e) == old(Objects(e)) && Owned(e) == old(Owned(e))
  {
    hide Ready, Heap, Objects, Owned, InUnion;
    x1 := DrawOne(pq, m);
    ghost var m1 := multiset(pq.View());
    x2 := DrawOne(pq, m);
    rest := multiset(pq.View());
    TwoOut(m, m1, rest, x1, x2);
  }

  /** Puts back a joined bitmap. */
  method PutBack(pq: Queue, e: Element, ghost m: multiset<Element>)
    requires pq.Valid() && pq.size < pq.elements.Length
    requires m == multiset(pq.View()) + multiset{e} && Ready(m) && Aside(pq, m)
    modifies pq`size, pq.elements
    ensures pq.Valid() && pq.size == old(pq.size) + 1 && multiset(pq.View()) == m
    ensures Ready(m) && Aside(pq, m)
    ensures forall v :: InUnion(m, v) <==> old(InUnion(m, v))
    ensures forall d :: d in m ==> Objects(d) == old(Objects(d)) && Owned(d) == old(Owned(d))
  {
    hide Ready, Heap, InUnion;
    pq.Add(e);
    forall d | d in m ensures unchanged(d.bitmap) && unchanged(d.bitmap.keys) && unchanged(d.bitmap.containers) {
      assert pq !in Objects(d) && pq.elements !in Objects(d);
    }
    StillReady(m);
  }

  /** The join of the two bitmaps drawn, which leaves the queue itself alone. */
  method JoinDrawn(pq: Queue, ghost m: multiset<Element>, ghost rest: multiset<Element>, x1: Element, x2: Element)
    returns (e: Element)
    requires Ready(m) && m == rest + multiset{x1, x2} && Aside(pq, m) && pq.Valid()
    modifies Owned(x1), Owned(x2)
    ensures unchanged(pq) && unchanged(pq.elements)
    ensures e.isTemporary && Ready(rest + multiset{e}) && Aside(pq, rest + multiset{e})
    ensures forall v :: InUnion(rest + multiset{e}, v) <==> old(InUnion(m, v))
    ensures forall o :: o in Owned(e) ==> fresh(o) || o in old(Owned(x1) + Owned(x2))
    ensures forall d :: d in rest ==> Objects(d) == old(Objects(d)) && Owned(d) == old(Owned(d))
  {
    hide Ready, InUnion;
    e := JoinStep(m, rest, x1, x2);
  }

  /** One turn of the loop of `roaring_bitmap_or_many_heap`. */
  method Round(pq: Queue, ghost m: multiset<Element>) returns (e: Element, ghost rest: multiset<Element>)
    requires pq.Valid() && pq.size > 1 && m == multiset(pq.View()) && Ready(m) && Aside(pq, m)
    modifies pq`size, pq.elements, AllOwned(m)
    ensures pq.Valid() && pq.size == old(pq.size) - 1 && multiset(pq.View()) == rest + multiset{e}
    ensures rest <= m && e.isTemporary && Ready(rest + multiset{e}) && Aside(pq, rest + multiset{e})
    ensures forall v :: InUnion(rest + multiset{e}, v) <==> old(InUnion(m, v))
    ensures forall o :: o in AllOwned(rest + multiset{e}) ==> fresh(o) || o in old(AllOwned(m))
  {
    hide Ready, InUnion, Heap, AllOwned, Objects, Owned;
    OwnedAll(m);
    var x1, x2;
    x1, x2, rest := Draw(pq, m);
    e := JoinDrawn(pq, m, rest, x1, x2);
    PutBack(pq, e, rest + multiset{e});
    OwnedByOne(rest, e);
    OwnedOfAll(rest, old(AllOwned(m)));
  }

  /** `v` lies in one of the given bitmaps. */
  ghost predicate InAny(x: seq<RoaringArray>, v: int)
    reads set b | b in x, set b | b in x :: b.keys, set b | b in x :: b.containers
  {
    exists i :: 0 <= i < |x| && x[i].Fits() && v in x[i].Values()
  }

  /** The queue of the inputs, which are nobody's temporaries. */
  lemma StartReady(x: seq<RoaringArray>, items: seq<Element>)
    requires |items| == |x| && forall i :: 0 <= i < |x| ==>
      x[i].Valid() && items[i].bitmap == x[i] && !items[i].isTemporary
    ensures Ready(multiset(items)) && AllOwned(multiset(items)) == {}
    ensures forall v :: InUnion(multiset(items), v) <==> InAny(x, v)
  {
    hide LazyLayout, Layout, Whole;
    var m := multiset(items);
    forall e | e in m ensures LazyBitmap(e.bitmap) && !e.isTemporary && exists i :: 0 <= i < |x| && e == items[i] {
      var i :| 0 <= i < |items| && items[i] == e;
      assert x[i].Valid();
      LayoutIsLazy(x[i].Keys(), x[i].Slots());
    }
    assert forall e :: e in m ==> Owned(e) == {};
    forall v ensures InUnion(m, v) <==> InAny(x, v) {
      if InAny(x, v) {
        var i :| 0 <= i < |x| && v in x[i].Values();
        assert items[i] in m && Has(items[i], v);
      }
    }
  }

  lemma OnlyOne(m: multiset<Element>, e: Element)
    requires Ready(m) && e in m && |m| == 1
    ensures LazyBitmap(e.bitmap) && forall v :: InUnion(m, v) <==> Has(e, v)
  {
    hide LazyBitmap, Has, Apart;
    var rest := m - multiset{e};
    assert |rest| == 0;
    assert rest == multiset{};
    forall d ensures d in m <==> d == e { assert m == rest + multiset{e}; }
  }

  lemma LastIsTemporary(m: multiset<Element>, rest: multiset<Element>, e: Element)
    requires m == rest + multiset{e} && |m| == 1
    ensures forall d :: d in m ==> d == e
  {
    assert |rest| == 0;
    assert rest == multiset{};
  }

  /** The loop of `roaring_bitmap_or_many_heap`: one bitmap less in every turn. */
  method JoinAll(pq: Queue, ghost m0: multiset<Element>) returns (ghost m: multiset<Element>)
    requires pq.Valid() && pq.size > 1 && m0 == multiset(pq.View()) && Ready(m0) && Aside(pq, m0) && AllOwned(m0) == {}
    modifies pq`size, pq.elements
    ensures pq.Valid() && pq.size == 1 && m == multiset(pq.View()) && Ready(m) && Aside(pq, m)
    ensures forall v :: InUnion(m, v) <==> old(InUnion(m0, v))
    ensures forall d :: d in m ==> d.isTemporary
    ensures forall o :: o in AllOwned(m) ==> fresh(o)
  {
    hide Ready, InUnion, Heap, AllOwned, Objects, Owned, Aside;
    m := m0;
    ghost var u := iset v | InUnion(m, v);
    while pq.size > 1
      invariant pq.Valid() && pq.size > 0 && m == multiset(pq.View()) && Ready(m) && Aside(pq, m)
      invariant forall v :: InUnion(m, v) <==> v in u
      invariant forall o :: o in AllOwned(m) ==> fresh(o)
      invariant pq.size == 1 ==> forall d :: d in m ==> d.isTemporary
      decreases pq.size
    {
      var e;
      ghost var rest;
      e, rest := Round(pq, m);
      m := rest + multiset{e};
      if pq.size == 1 { LastIsTemporary(m, rest, e); }
    }
  }

  /** The last bitmap in the queue is repaired, and is the answer. */
  method Finish(pq: Queue, ghost m: multiset<Element>) returns (answer: RoaringArray)
    requires pq.Valid() && pq.size == 1 && m == multiset(pq.View()) && Ready(m) && Aside(pq, m)
    requires forall d :: d in m ==> d.isTemporary
    modifies pq`size, pq.elements, AllOwned(m)
    ensures answer.Valid() && forall v :: v in answer.Values() <==> old(InUnion(m, v))
    ensures {answer, answer.keys, answer.containers} <= old(AllOwned(m))
  {
    hide Ready, InUnion, Heap, AllOwned, LazyLayout, Layout, Whole;
    OwnedAll(m);
    var x := DrawOne(pq, m);
    OnlyOne(m, x);
    answer := x.bitmap;
    assert Owned(x) == old(Owned(x)) && forall v :: old(InUnion(m, v)) <==> v in answer.Values();
    RepairAfterLazy(answer);
  }

  lemma FewInputs(x: seq<RoaringArray>)
    requires forall i :: 0 <= i < |x| ==> x[i].Valid()
    ensures |x| == 0 ==> forall v :: !InAny(x, v)
    ensures |x| == 1 ==> x[0].Valid() && forall v :: InAny(x, v) <==> v in x[0].Values()
  {
    hide Layout, Whole;
  }

  lemma AnyIs(x: seq<RoaringArray>)
    requires forall i :: 0 <= i < |x| ==> x[i].Valid()
    ensures forall v :: InAny(x, v) <==> exists i :: 0 <= i < |x| && x[i].Fits() && v in x[i].Values()
  {
    hide Layout, Whole;
  }

  /**
   `roaring_bitmap_or_many_heap`: the union of all the bitmaps. Having no `modifies`, it leaves every one of them
   alone.
   */
  method OrManyHeap(x: seq<RoaringArray>) returns (answer: RoaringArray)
    requires forall i :: 0 <= i < |x| ==> x[i].Valid()
    ensures answer.Valid() && fresh(answer) && fresh(answer.keys) && fresh(answer.containers)
    ensures forall v :: v in answer.Values() <==> old(InAny(x, v))
    ensures forall v :: v in answer.Values() <==> exists i :: 0 <= i < |x| && old(x[i].Fits() && v in x[i].Values())
  {
    hide Layout, Whole, Ready, InUnion, Heap, AllOwned, InAny;
    FewInputs(x);
    AnyIs(x);
    if |x| == 0 {
      answer := new RoaringArray();
      return;
    }
    if |x| == 1 {
      answer := Copy(x[0]);
      return;
    }
    var pq, items := CreateQueue(x);
    StartReady(x, items);
    var m := JoinAll(pq, multiset(items));
    answer := Finish(pq, m);
  }
}
