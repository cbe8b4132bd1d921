/**
 Every set of values has a run list and a bitset, and every set of 32-bit values a layout with either of them under a
 key.
 */
module Representations {
  import opened IntSets
  import opened Bitsets
  import opened Runs
  import opened Containers
  import opened Slots
  import opened BitmapEquality
  import Bitmaps

  /** The canonical run list of the members below `n`: each member extends the last run or begins a new one. */
  lemma {:induction false} RunsOf(s: set<int>, n: nat) returns (runs: seq<Run>)
    requires s <= Range(0, 0x1_0000) && n <= 0x1_0000
    ensures Canonical(runs) && Denote(runs) == Below(s, n) && (runs != [] ==> runs[|runs| - 1].End() <= n)
    decreases n
  {
    hide Canonical;
    if n == 0 {
      runs := [];
      NothingBelow(s);
      assert Canonical([]) by { NoRunsCanonical(); }
    } else {
      var x := n - 1;
      var before := RunsOf(s, x);
      BelowOne(s, x);
      if x !in s {
        runs := before;
      } else if before != [] && before[|before| - 1].End() == x {
        runs := Extended(before, x);
      } else {
        runs := before + [Run(x, 0)];
        CanonicalSnoc(before, Run(x, 0));
        DenoteSnoc(before, Run(x, 0));
        OneValue(x);
      }
    }
  }

  lemma NoRunsCanonical()
    ensures Canonical([])
  {
  }

  lemma NothingBelow(s: set<int>)
    requires s <= Range(0, 0x1_0000)
    ensures Below(s, 0) == {}
  {
  }

  lemma BelowOne(s: set<int>, x: int)
    ensures Below(s, x + 1) == Below(s, x) + (if x in s then {x} else {})
  {
  }

  lemma OneValue(x: u16)
    ensures Range(x, Run(x, 0).End()) == {x as int}
  {
  }

  /** The last run becomes longer by the value behind it. */
  lemma Extended(before: seq<Run>, x: u16) returns (runs: seq<Run>)
    requires Canonical(before) && before != [] && before[|before| - 1].End() == x
    ensures Canonical(runs) && Denote(runs) == Denote(before) + {x as int} && runs != [] &&
      runs[|runs| - 1].End() == x + 1
  {
    hide Denote;
    var n := |before| - 1;
    var last := before[n];
    var longer := Run(last.value, x - last.value);
    runs := before[..n] + [longer];
    CanonicalSlice(before, 0, n);
    CanonicalSnoc(before[..n], longer);
    DenoteSnoc(before[..n], longer);
    DenoteSnoc(before[..n], last);
    assert before[..n] + [last] == before;
    assert Range(last.value, longer.End()) == Range(last.value, last.End()) + {x as int};
  }

  /** The words with the bits of the members below `n`. */
  lemma {:induction false} WordsOf(s: set<int>, n: nat) returns (words: seq<bv64>)
    requires s <= Range(0, 0x1_0000) && n <= 0x1_0000
    ensures |words| == BITSET_WORDS && BitSet(words) == Below(s, n)
    decreases n
  {
    hide BitSet, SetWords;
    if n == 0 {
      words := seq(BITSET_WORDS, _ => 0);
      NoBits(words);
      NothingBelow(s);
    } else {
      var x := n - 1;
      words := WordsOf(s, x);
      BelowOne(s, x);
      if x in s {
        SetWordsDenotes(words, x, x + 1);
        SetWordsLength(words, x);
        words := SetWords(words, x, x + 1);
        assert Range(x, x + 1) == {x};
      }
    }
  }

  lemma SetWordsLength(words: seq<bv64>, x: int)
    ensures |SetWords(words, x, x + 1)| == |words|
  {
  }

  /** A run list for every set of values that is not empty, and a bitset for every one of at least 2048 values. */
  lemma AsRuns(s: set<int>) returns (c: Container)
    requires s <= Range(0, 0x1_0000) && s != {}
    ensures c.RunC? && Good(c) && Elems(c) == s
  {
    hide Denote, Canonical;
    var runs := RunsOf(s, 0x1_0000);
    assert Below(s, 0x1_0000) == s;
    c := RunC(runs);
  }

  lemma AsBitset(s: set<int>) returns (c: Container)
    requires s <= Range(0, 0x1_0000) && |s| >= 2048
    ensures c.BitsetC? && Good(c) && Elems(c) == s
  {
    hide BitSet;
    var words := WordsOf(s, 0x1_0000);
    assert Below(s, 0x1_0000) == s;
    c := BitsetC(words, |s|);
  }

  // ---------- layouts ----------

  /** Slots for the keys below `n`, with `c` under key `k`. */
  ghost predicate Built(s: set<int>, k: u16, c: Container, n: nat, keys: seq<u16>, cs: seq<Container>) {
    && Layout(keys, cs)
    && (forall p :: 0 <= p < |keys| ==> keys[p] < n && (keys[p] == k ==> cs[p] == c))
    && forall j: u16 :: At(keys, cs, j) == if j < n then UnderKey(s, j) else {}
  }

  lemma {:induction false} BuildBelow(s: set<int>, k: u16, c: Container, n: nat)
    returns (keys: seq<u16>, cs: seq<Container>)
    requires Good(c) && Elems(c) == UnderKey(s, k) && n <= 0x1_0000
    ensures Built(s, k, c, n, keys, cs)
    decreases n
  {
    hide Built, Good, Elems;
    if n == 0 {
      keys, cs := [], [];
      BuiltNothing(s, k, c);
    } else {
      var j: u16 := n - 1;
      keys, cs := BuildBelow(s, k, c, j);
      if UnderKey(s, j) == {} {
        BuiltSkip(s, k, c, j, keys, cs);
      } else {
        var d := c;
        if j != k { d := AsRuns(UnderKey(s, j)); }
        BuiltNext(s, k, c, j, keys, cs, d);
        keys, cs := keys + [j], cs + [d];
      }
    }
  }

  lemma BuiltNothing(s: set<int>, k: u16, c: Container)
    ensures Built(s, k, c, 0, [], [])
  {
  }

  lemma BuiltSkip(s: set<int>, k: u16, c: Container, j: u16, keys: seq<u16>, cs: seq<Container>)
    requires Built(s, k, c, j, keys, cs) && UnderKey(s, j) == {}
    ensures Built(s, k, c, j + 1, keys, cs)
  {
    hide UnderKey, Layout, At;
  }

  lemma BuiltNext(s: set<int>, k: u16, c: Container, j: u16, keys: seq<u16>, cs: seq<Container>, d: Container)
    requires Built(s, k, c, j, keys, cs) && Good(d) && Elems(d) == UnderKey(s, j) && (j == k ==> d == c)
    ensures Built(s, k, c, j + 1, keys + [j], cs + [d])
  {
    hide UnderKey, Elems, At, Good, Layout;
    Bitmaps.LayoutIs(keys, cs);
    Bitmaps.LayoutOne(j, d);
    Bitmaps.LayoutConcat(keys, cs, [j], [d]);
    forall i: u16 ensures At(keys + [j], cs + [d], i) == if i < j + 1 then UnderKey(s, i) else {} {
      AtSnoc(keys, cs, j, d, i);
    }
  }

  /** A bitmap in order for every set, with a given container under a key. */
  lemma LayoutWith(s: set<int>, k: u16, c: Container) returns (keys: seq<u16>, cs: seq<Container>, p: nat)
    requires s <= Range(0, 0x1_0000_0000) && Good(c) && Elems(c) == UnderKey(s, k)
    ensures Layout(keys, cs) && Whole(keys, cs) == s && p < |keys| == |cs| && keys[p] == k && cs[p] == c
  {
    hide Elems, At, Whole, Layout;
    keys, cs := BuildBelow(s, k, c, 0x1_0000);
    Bitmaps.LayoutIs(keys, cs);
    WholeBuilt(s, keys, cs);
    if forall i :: 0 <= i < |keys| ==> keys[i] != k {
      AtMissing(keys, cs, k);
      assert false;
    }
    p :| 0 <= p < |keys| && keys[p] == k;
  }

  lemma WholeBuilt(s: set<int>, keys: seq<u16>, cs: seq<Container>)
    requires s <= Range(0, 0x1_0000_0000) && |keys| == |cs| && forall j: u16 :: At(keys, cs, j) == UnderKey(s, j)
    ensures Whole(keys, cs) == s
  {
    hide At;
    forall x ensures x in Whole(keys, cs) <==> x in s {
      if 0 <= x < 0x1_0000_0000 {
        var j: u16 := x / 0x1_0000;
        assert x == 0x1_0000 * (j as int) + x % 0x1_0000;
        assert x % 0x1_0000 in UnderKey(s, j) <==> Under(s, j, x % 0x1_0000);
      } else {
        assert x !in Range(0, 0x1_0000_0000);
      }
    }
  }
}
