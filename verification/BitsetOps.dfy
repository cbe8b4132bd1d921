/** The four set operations, and the word-by-word kernels that compute them on bitsets. */
module BitsetOps {
  import opened IntSets
  import opened Words
  import opened Bitsets

  /** The operation that a `BITSET_CONTAINER_FN` kernel is instantiated with. */
  datatype Op = OrOp | AndOp | XorOp | AndNotOp

  function Apply(op: Op, a: bv64, b: bv64): bv64 {
    match op
    case OrOp => Or(a, b)
    case AndOp => And(a, b)
    case XorOp => Flip(a, b)
    case AndNotOp => And(a, Not(b))
  }

  function SetOp(op: Op, a: set<int>, b: set<int>): set<int> {
    match op
    case OrOp => a + b
    case AndOp => a * b
    case XorOp => Xor(a, b)
    case AndNotOp => a - b
  }

  function Holds(op: Op, p: bool, q: bool): bool {
    match op
    case OrOp => p || q
    case AndOp => p && q
    case XorOp => p != q
    case AndNotOp => p && !q
  }

  lemma SetOpMember(op: Op, a: set<int>, b: set<int>, x: int)
    ensures x in SetOp(op, a, b) <==> Holds(op, x in a, x in b)
  {
  }

  lemma ApplyBit(op: Op, a: bv64, b: bv64, i: nat)
    requires i < 64
    ensures Bit(Apply(op, a, b), i) <==> Holds(op, Bit(a, i), Bit(b, i))
  {
    hide Bit, And, Or, Flip, Not;
    BitOps(a, b, i);
    BitOps(a, Not(b), i);
    BitNot(b, i);
  }

  function Combine(op: Op, a: seq<bv64>, b: seq<bv64>): (c: seq<bv64>)
    requires |a| == |b|
    ensures |c| == |a|
  {
    seq(|a|, j requires 0 <= j < |a| => Apply(op, a[j], b[j]))
  }

  lemma CombineDenotes(op: Op, a: seq<bv64>, b: seq<bv64>)
    requires |a| == |b|
    ensures BitSet(Combine(op, a, b)) == SetOp(op, BitSet(a), BitSet(b))
  {
    hide Bit, Apply, Holds, SetOp;
    var s, t := BitSet(Combine(op, a, b)), SetOp(op, BitSet(a), BitSet(b));
    forall x ensures x in s <==> x in t {
      SetOpMember(op, BitSet(a), BitSet(b), x);
      if 0 <= x < 64 * |a| {
        ApplyBit(op, a[x / 64], b[x / 64], x % 64);
      } else {
        HoldsNot(op);
      }
    }
  }

  lemma HoldsNot(op: Op)
    ensures !Holds(op, false, false)
  {
  }

  lemma CombineAnd(a: seq<bv64>, b: seq<bv64>)
    requires |a| == |b|
    ensures forall j :: 0 <= j < |a| ==> Combine(AndOp, a, b)[j] == And(a[j], b[j])
  {
  }

  /** `bitset_container_or`, `_and`, `_xor` and `_andnot`: `out` may be either operand. */
  method Kernel(op: Op, one: array<bv64>, other: array<bv64>, out: array<bv64>) returns (sum: nat)
    requires one.Length == other.Length == out.Length && out.Length % 2 == 0
    modifies out
    ensures BitSet(out[..]) == SetOp(op, old(BitSet(one[..])), old(BitSet(other[..])))
    ensures sum == |BitSet(out[..])|
  {
    hide Apply, SetOp, BitSet, Hamming, Combine, SumHamming;
    ghost var a, b := one[..], other[..];
    ghost var c := Combine(op, a, b);
    CombineAt(op, a, b);
    CombineDenotes(op, a, b);
    CardinalityIsSum(c);
    NoWords(c);
    sum := 0;
    var i := 0;
    while i < out.Length
      invariant i <= out.Length && i % 2 == 0
      invariant forall j :: 0 <= j < i ==> out[j] == c[j]
      invariant forall j :: i <= j < out.Length ==> one[j] == a[j] && other[j] == b[j]
      invariant sum == SumHamming(c, i)
    {
      var word1, word2 := StoreTwo(op, one, other, out, i, a, b, c);
      SumTwo(c, i);
      sum := sum + Hamming(word1);
      sum := sum + Hamming(word2);
      i := i + 2;
    }
    assert out[..] == c;
  }

  /** The words `i` and `i + 1` of the result. */
  method StoreTwo(op: Op, one: array<bv64>, other: array<bv64>, out: array<bv64>, i: nat,
                  ghost a: seq<bv64>, ghost b: seq<bv64>, ghost c: seq<bv64>)
    returns (word1: bv64, word2: bv64)
    requires |a| == |b| == |c| == one.Length == other.Length == out.Length && i + 1 < out.Length
    requires forall j :: i <= j < out.Length ==> one[j] == a[j] && other[j] == b[j] && c[j] == Apply(op, a[j], b[j])
    modifies out
    ensures word1 == c[i] && word2 == c[i + 1]
    ensures out[..] == old(out[..])[i := c[i]][i + 1 := c[i + 1]]
    ensures forall j :: i + 2 <= j < out.Length ==> one[j] == a[j] && other[j] == b[j]
  {
    hide Apply;
    word1, word2 := Apply(op, one[i], other[i]), Apply(op, one[i + 1], other[i + 1]);
    out[i] := word1;
    out[i + 1] := word2;
  }

  lemma CombineAt(op: Op, a: seq<bv64>, b: seq<bv64>)
    requires |a| == |b|
    ensures forall j :: 0 <= j < |a| ==> Combine(op, a, b)[j] == Apply(op, a[j], b[j])
  {
  }

  lemma NoWords(c: seq<bv64>)
    ensures SumHamming(c, 0) == 0
  {
  }

  lemma SumTwo(c: seq<bv64>, i: nat)
    requires i + 2 <= |c|
    ensures SumHamming(c, i + 2) == SumHamming(c, i) + Hamming(c[i]) + Hamming(c[i + 1])
  {
  }

  /** `bitset_container_and_nocard` */
  method KernelNocard(op: Op, one: array<bv64>, other: array<bv64>, out: array<bv64>)
    requires one.Length == other.Length == out.Length
    modifies out
    ensures BitSet(out[..]) == SetOp(op, old(BitSet(one[..])), old(BitSet(other[..])))
  {
    hide Apply, SetOp, BitSet, Combine;
    ghost var a, b := one[..], other[..];
    ghost var c := Combine(op, a, b);
    CombineAt(op, a, b);
    CombineDenotes(op, a, b);
    var i := 0;
    while i < out.Length
      invariant i <= out.Length
      invariant forall j :: 0 <= j < i ==> out[j] == c[j]
      invariant forall j :: i <= j < out.Length ==> one[j] == a[j] && other[j] == b[j]
    {
      out[i] := Apply(op, one[i], other[i]);
      i := i + 1;
    }
    assert out[..] == c;
  }

  /** `bitset_container_and_justcard` */
  method KernelJustcard(op: Op, one: array<bv64>, other: array<bv64>) returns (sum: nat)
    requires one.Length == other.Length && one.Length % 2 == 0
    ensures sum == |SetOp(op, BitSet(one[..]), BitSet(other[..]))|
  {
    hide Apply, SetOp, BitSet, Hamming, Combine, SumHamming;
    ghost var a, b := one[..], other[..];
    ghost var c := Combine(op, a, b);
    CombineAt(op, a, b);
    CombineDenotes(op, a, b);
    CardinalityIsSum(c);
    NoWords(c);
    sum := 0;
    var i := 0;
    while i < one.Length
      invariant i <= one.Length && i % 2 == 0 && sum == SumHamming(c, i)
    {
      var word1, word2 := Apply(op, one[i], other[i]), Apply(op, one[i + 1], other[i + 1]);
      SumTwo(c, i);
      sum := sum + Hamming(word1);
      sum := sum + Hamming(word2);
      i := i + 2;
    }
  }
}
