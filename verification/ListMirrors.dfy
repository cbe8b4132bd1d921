/** Bitsets that mark positions of a list, as the callers of the splice keep them. */
module ListMirrors {
  import opened IntSets
  import opened EggBitsets
  import Iterators
  import Slots
  import Splices

  /** `removed` items go from `position` on, and `added` unmarked ones come: the marks move with their items. */
  method ItemsReplaced(b: EggBitset, ghost marks: seq<bool>, position: u32, removed: u32, added: u32)
    requires b.Valid() && forall i: int :: i in b.Values() <==> 0 <= i < |marks| && marks[i]
    requires position + removed <= |marks| && |marks| - removed + added <= 0x1_0000_0000
    requires position + removed < 0x1_0000_0000 && position + added < 0x1_0000_0000
    modifies b.roaring, b.roaring.keys, b.roaring.containers
    ensures b.Valid() && Kept(b.roaring)
    ensures var marks' := marks[..position] + seq(added, _ => false) + marks[position + removed..];
      forall i: int :: i in b.Values() <==> 0 <= i < |marks'| && marks'[i]
  {
    hide Splices.Spliced, Slots.Layout, Slots.Whole;
    assert b.Values() == Splices.Marked(marks);
    Splices.SpliceMirrorsList(marks, position, removed, added);
    SpliceSet(b, position, removed, added);
  }

  /** The splice, by the set that it makes. */
  method SpliceSet(b: EggBitset, position: u32, removed: u32, added: u32)
    requires b.Valid() && position + removed < 0x1_0000_0000 && position + added < 0x1_0000_0000
    modifies b.roaring, b.roaring.keys, b.roaring.containers
    ensures b.Valid() && Kept(b.roaring)
    ensures b.Values() == Splices.Spliced(old(b.Values()), position, removed, added)
  {
    b.Splice(position, removed, added);
  }

  /**
   `sysprof_normalized_series_items_changed` on the set of missing values: every new item is missing.
   */
  method ItemsChanged(b: EggBitset, ghost marks: seq<bool>, position: u32, removed: u32, added: u32)
    requires b.Valid() && forall i: int :: i in b.Values() <==> 0 <= i < |marks| && marks[i]
    requires position + removed <= |marks| <= 0xFFFF_FFFF && |marks| - removed + added <= 0xFFFF_FFFF
    modifies b.roaring, b.roaring.keys, b.roaring.containers
    ensures b.Valid() && Kept(b.roaring)
    ensures var marks' := marks[..position] + seq(added, _ => true) + marks[position + removed..];
      forall i: int :: i in b.Values() <==> 0 <= i < |marks'| && marks'[i]
  {
    if removed > 0 || added > 0 {
      ItemsReplaced(b, marks, position, removed, added);
      if added > 0 {
        b.AddRange(position, added);
      }
    }
  }

  /** `n` places go in and come out again: the old values are back exactly when none has overflowed. */
  method InAndOut(b: EggBitset, position: u32, n: u32)
    requires b.Valid()
    modifies b.roaring, b.roaring.keys, b.roaring.containers
    ensures b.Valid() && Kept(b.roaring)
    ensures position + n < 0x1_0000_0000 ==>
      (b.Values() == old(b.Values()) <==>
         forall x: int :: x in old(b.Values()) && position <= x ==> x + n < 0x1_0000_0000)
    ensures position + n >= 0x1_0000_0000 ==> b.Values() == old(b.Values())
  {
    hide Splices.Spliced, Slots.Layout, Slots.Whole;
    ghost var s := b.Values();
    Iterators.WholeBounds(b.roaring.Keys(), b.roaring.Slots());
    Splices.SpliceInAndOut(s, position, n);
    b.Splice(position, 0, n);
    b.Splice(position, n, 0);
  }

  /** `n` places go out and come in again: the values that stood there are lost, and no others. */
  method OutAndIn(b: EggBitset, position: u32, n: u32)
    requires b.Valid()
    modifies b.roaring, b.roaring.keys, b.roaring.containers
    ensures b.Valid() && Kept(b.roaring)
    ensures forall x: int :: x in b.Values() <==>
      x in old(b.Values()) && !(position <= x < position + n < 0x1_0000_0000)
  {
    hide Splices.Spliced, Slots.Layout, Slots.Whole;
    ghost var s := b.Values();
    Iterators.WholeBounds(b.roaring.Keys(), b.roaring.Slots());
    Splices.SpliceOutAndIn(s, position, n);
    b.Splice(position, n, 0);
    b.Splice(position, 0, n);
  }
}
