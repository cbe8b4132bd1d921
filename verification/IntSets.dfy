/** Machine integers and finite sets of integers shared by every layer. */
module IntSets {

  /** A `uint16_t`: a value stored in a container, and every field of a run. */
  type u16 = x: int | 0 <= x < 0x1_0000

  /** A `uint32_t`: a value of the whole bitmap. */
  type u32 = x: int | 0 <= x < 0x1_0000_0000

  predicate InRange(x: int, lo: int, hi: int) { lo <= x < hi }

  /** The integers of `[lo, hi)`. */
  function Range(lo: int, hi: int): set<int> {
    set x: int | lo <= x < hi && InRange(x, lo, hi)
  }

  /** Symmetric difference. */
  function Xor(a: set<int>, b: set<int>): set<int> {
    (a - b) + (b - a)
  }

  lemma XorOutside(i: set<int>, a: set<int>, b: set<int>)
    requires i !! a && i !! b
    ensures i + Xor(a, b) == Xor(i + a, b)
  {
  }

  lemma {:induction false} RangeSize(lo: int, hi: int)
    requires lo <= hi
    ensures |Range(lo, hi)| == hi - lo
    decreases hi - lo
  {
    if lo < hi {
      RangeSize(lo, hi - 1);
      assert Range(lo, hi) == Range(lo, hi - 1) + {hi - 1};
    }
  }

  lemma SubsetSize(a: set<int>, b: set<int>)
    requires a <= b
    ensures |a| <= |b|
  {
    assert b == a + (b - a);
  }

  lemma SubsetSameSize(a: set<int>, b: set<int>)
    requires a <= b && |a| == |b|
    ensures a == b
  {
    assert b == a + (b - a);
  }

  lemma DisjointUnionSize(a: set<int>, b: set<int>)
    requires a !! b
    ensures |a + b| == |a| + |b|
  {
  }

  /** The members of `s` below `f`. */
  function Below(s: set<int>, f: int): set<int> {
    set x | x in s && x < f
  }
}
