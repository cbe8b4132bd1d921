/** The images of small bitmaps, byte for byte: written and read. */
module Images {
  import opened IntSets
  import opened Bytes
  import opened ByteDigits
  import opened Runs
  import opened Containers
  import opened Slots
  import opened RoaringArrays
  import opened Encoding
  import opened Format
  import opened Serialization
  import opened Deserialization
  import BitmapEquality
  import Bitmaps

  /** The image of the empty bitmap. */
  lemma EmptyImage(b: seq<byte>)
    ensures IsImage(b, [], []) <==> b == [0x3A, 0x30, 0, 0, 0, 0, 0, 0]
    ensures b == [0x3A, 0x30, 0, 0, 0, 0, 0, 0] ==> Reads(b, [], [], 8)
  {
    if IsImage(b, [], []) { EmptyBytes(b); }
  }

  lemma EmptyBytes(b: seq<byte>)
    requires IsImage(b, [], [])
    ensures b == [0x3A, 0x30, 0, 0, 0, 0, 0, 0]
  {
    EmptyNumbers(b);
    hide IsImage, Le16;
    TwoBytes(b, 0);
    TwoBytes(b, 2);
    TwoBytes(b, 4);
    TwoBytes(b, 6);
  }

  lemma EmptyNumbers(b: seq<byte>)
    requires IsImage(b, [], [])
    ensures |b| == 8 && Le16(b, 0) == 12346 && Le16(b, 2) == 0 && Le16(b, 4) == 0 && Le16(b, 6) == 0
  {
    hide Le16;
  }

  /** The image of the values 0 and 1 as a run. */
  lemma PairImage(b: seq<byte>)
    ensures IsImage(b, [0], [RunC([Run(0, 1)])]) <==>
      b == [0x3B, 0x30, 0, 0, 1, 0, 0, 1, 0, 1, 0, 0, 0, 1, 0]
    ensures b == [0x3B, 0x30, 0, 0, 1, 0, 0, 1, 0, 1, 0, 0, 0, 1, 0] ==> Reads(b, [0], [RunC([Run(0, 1)])], 15)
  {
    PairSize();
    PairStarts();
    if IsImage(b, [0], [RunC([Run(0, 1)])]) { PairBytes(b); }
    if b == [0x3B, 0x30, 0, 0, 1, 0, 0, 1, 0, 1, 0, 0, 0, 1, 0] { PairStands(b); }
  }

  lemma PairSize()
    ensures Elems(RunC([Run(0, 1)])) == {0, 1}
  {
    DenoteSingle(Run(0, 1));
  }

  lemma PairStarts()
    ensures AnyRun([RunC([Run(0, 1)])]) && Starts(9, [RunC([Run(0, 1)])]) == [9, 15]
  {
    assert [RunC([Run(0, 1)])][0].RunC?;
  }

  lemma PairStands(b: seq<byte>)
    requires b == [0x3B, 0x30, 0, 0, 1, 0, 0, 1, 0, 1, 0, 0, 0, 1, 0]
    ensures IsImage(b, [0], [RunC([Run(0, 1)])]) && Reads(b, [0], [RunC([Run(0, 1)])], 15)
  {
    hide Starts, Elems;
    PairSize();
    PairStarts();
    assert DigitAt(b, 4, 0) && forall k :: 1 <= k < 8 ==> !DigitAt(b, 4, k);
    assert ContainerAt(b, 9, RunC([Run(0, 1)]));
  }

  lemma PairBytes(b: seq<byte>)
    requires IsImage(b, [0], [RunC([Run(0, 1)])])
    ensures b == [0x3B, 0x30, 0, 0, 1, 0, 0, 1, 0, 1, 0, 0, 0, 1, 0]
  {
    PairNumbers(b);
    hide IsImage, Le16, DigitAt;
    OneDigit(b, 4);
    TwoBytes(b, 0);
    TwoBytes(b, 2);
    TwoBytes(b, 5);
    TwoBytes(b, 7);
    TwoBytes(b, 9);
    TwoBytes(b, 11);
    TwoBytes(b, 13);
  }

  lemma PairNumbers(b: seq<byte>)
    requires IsImage(b, [0], [RunC([Run(0, 1)])])
    ensures |b| == 15 && Le16(b, 0) == 12347 && Le16(b, 2) == 0
    ensures forall k :: 0 <= k < 8 ==> (DigitAt(b, 4, k) <==> k == 0)
    ensures Le16(b, 5) == 0 && Le16(b, 7) == 1 && Le16(b, 9) == 1 && Le16(b, 11) == 0 && Le16(b, 13) == 1
  {
    hide Starts, Elems, Le16, DigitAt;
    PairSize();
    PairStarts();
    var cs := [RunC([Run(0, 1)])];
    assert SlotAt(b, true, [0], cs, 0, 9);
    assert cs[0].runs[0] == Run(0, 1);
  }

  /** Small numbers, and the two cookies, by their bytes. */
  lemma TwoBytes(b: seq<byte>, p: nat)
    requires p + 2 <= |b|
    ensures Le16(b, p) == 0 ==> b[p] == 0 && b[p + 1] == 0
    ensures Le16(b, p) == 1 ==> b[p] == 1 && b[p + 1] == 0
    ensures Le16(b, p) == 5 ==> b[p] == 5 && b[p + 1] == 0
    ensures Le16(b, p) == 16 ==> b[p] == 16 && b[p + 1] == 0
    ensures Le16(b, p) == 12346 ==> b[p] == 0x3A && b[p + 1] == 0x30
    ensures Le16(b, p) == 12347 ==> b[p] == 0x3B && b[p + 1] == 0x30
  {
  }

  lemma OneDigit(b: seq<byte>, p: nat)
    requires p < |b| && forall k :: 0 <= k < 8 ==> (DigitAt(b, p, k) <==> k == 0)
    ensures b[p] == 1
  {
    assert DigitAt(b, p, 0) && !DigitAt(b, p, 1) && !DigitAt(b, p, 2) && !DigitAt(b, p, 3);
    assert !DigitAt(b, p, 4) && !DigitAt(b, p, 5) && !DigitAt(b, p, 6) && !DigitAt(b, p, 7);
    ByteTests(b[p]);
    OneBit(b[p]);
  }

  lemma OneBit(b: byte)
    requires b & 1 != 0 && b & 2 == 0 && b & 4 == 0 && b & 8 == 0 && b & 16 == 0 && b & 32 == 0 && b & 64 == 0
    requires b & 128 == 0
    ensures b == 1
  {
  }

  /** The image of the value 5 in an array, with its offset. */
  lemma FiveImage(b: seq<byte>)
    ensures IsImage(b, [0], [ArrayC([5])]) <==>
      b == [0x3A, 0x30, 0, 0, 1, 0, 0, 0, 0, 0, 0, 0, 16, 0, 0, 0, 5, 0]
    ensures b == [0x3A, 0x30, 0, 0, 1, 0, 0, 0, 0, 0, 0, 0, 16, 0, 0, 0, 5, 0] ==> Reads(b, [0], [ArrayC([5])], 18)
  {
    if IsImage(b, [0], [ArrayC([5])]) { FiveBytes(b); }
    if b == [0x3A, 0x30, 0, 0, 1, 0, 0, 0, 0, 0, 0, 0, 16, 0, 0, 0, 5, 0] { FiveStands(b); }
  }

  lemma FiveIs()
    ensures Elems(ArrayC([5])) == {5}
    ensures !AnyRun([ArrayC([5])]) && Starts(16, [ArrayC([5])]) == [16, 18]
  {
    assert [5 as u16][0] == 5;
  }

  lemma FiveStands(b: seq<byte>)
    requires b == [0x3A, 0x30, 0, 0, 1, 0, 0, 0, 0, 0, 0, 0, 16, 0, 0, 0, 5, 0]
    ensures IsImage(b, [0], [ArrayC([5])]) && Reads(b, [0], [ArrayC([5])], 18)
  {
    FiveRead(b);
    hide Starts, Elems, Le16, Le32, ContainerAt;
    FiveIs();
  }

  lemma FiveRead(b: seq<byte>)
    requires b == [0x3A, 0x30, 0, 0, 1, 0, 0, 0, 0, 0, 0, 0, 16, 0, 0, 0, 5, 0]
    ensures Le16(b, 0) == 12346 && Le32(b, 0) == 12346 && Le32(b, 4) == 1 && Le32(b, 12) == 16
    ensures Le16(b, 8) == 0 && Le16(b, 10) == 0 && ContainerAt(b, 16, ArrayC([5]))
  {
  }

  lemma FiveBytes(b: seq<byte>)
    requires IsImage(b, [0], [ArrayC([5])])
    ensures b == [0x3A, 0x30, 0, 0, 1, 0, 0, 0, 0, 0, 0, 0, 16, 0, 0, 0, 5, 0]
  {
    FiveNumbers(b);
    hide IsImage, Le16;
    TwoBytes(b, 0);
    TwoBytes(b, 2);
    TwoBytes(b, 4);
    TwoBytes(b, 6);
    TwoBytes(b, 8);
    TwoBytes(b, 10);
    TwoBytes(b, 12);
    TwoBytes(b, 14);
    TwoBytes(b, 16);
  }

  lemma FiveNumbers(b: seq<byte>)
    requires IsImage(b, [0], [ArrayC([5])])
    ensures |b| == 18 && Le16(b, 0) == 12346 && Le16(b, 2) == 0 && Le16(b, 4) == 1 && Le16(b, 6) == 0
    ensures Le16(b, 8) == 0 && Le16(b, 10) == 0 && Le16(b, 12) == 16 && Le16(b, 14) == 0 && Le16(b, 16) == 5
  {
    FiveLongs(b);
    hide IsImage, Le16, Le32;
    LowHalf(b, 0);
    LowHalf(b, 4);
    LowHalf(b, 12);
  }

  lemma FiveLongs(b: seq<byte>)
    requires IsImage(b, [0], [ArrayC([5])])
    ensures |b| == 18 && Le32(b, 0) == 12346 && Le32(b, 4) == 1 && Le32(b, 12) == 16
    ensures Le16(b, 8) == 0 && Le16(b, 10) == 0 && Le16(b, 16) == 5
  {
    FiveParts(b);
    hide IsImage, Starts, Le16, Le32, SlotAt;
    FiveSlot(b);
  }

  lemma FiveParts(b: seq<byte>)
    requires IsImage(b, [0], [ArrayC([5])])
    ensures |b| == 18 && CookieAt(b, false, 1) && SlotAt(b, false, [0], [ArrayC([5])], 0, 16)
  {
    hide Starts, SlotAt, CookieAt;
    FiveIs();
  }

  lemma FiveSlot(b: seq<byte>)
    requires |b| == 18 && SlotAt(b, false, [0], [ArrayC([5])], 0, 16)
    ensures Le32(b, 12) == 16 && Le16(b, 8) == 0 && Le16(b, 10) == 0 && Le16(b, 16) == 5
  {
    hide Elems, Le16, Le32;
    FiveIs();
    assert [ArrayC([5])][0] == ArrayC([5]) && ArrayC([5]).vals[0] == 5;
  }

  // ---------- written and read ----------

  /** A new bitmap, written and read back. */
  method EmptyWritten() returns (buf: array<byte>, n: nat)
    ensures n <= buf.Length && buf[..n] == [0x3A, 0x30, 0, 0, 0, 0, 0, 0]
  {
    hide IsImage;
    var r := new RoaringArray();
    assert r.Keys() == [] && r.Slots() == [];
    NoSize();
    buf := new byte[8];
    n := Serialize(r, buf);
    EmptyImage(buf[..n]);
  }

  /** Its image, read and measured. */
  method EmptyRead() returns (answer: RoaringArray)
    ensures fresh(answer) && answer.Fits() && answer.size == 0
  {
    hide Reads;
    var buf: seq<byte> := [0x3A, 0x30, 0, 0, 0, 0, 0, 0];
    EmptyImage(buf);
    var ok, readBytes;
    ok, answer, readBytes := Deserialize(buf);
    var bytestotal := DeserializeSize(buf);
    assert ok && readBytes == 8 && bytestotal == 8;
    assert |answer.Slots()| == 0;
  }

  lemma NoSize()
    ensures PortableSize([]) == 8
  {
  }

  /** The values 0 and 1, added as a range and written. */
  method PairWritten() returns (buf: array<byte>, n: nat)
    ensures n <= buf.Length && buf[..n] == [0x3B, 0x30, 0, 0, 1, 0, 0, 1, 0, 1, 0, 0, 0, 1, 0]
  {
    hide IsImage, Layout, Whole;
    var r := new RoaringArray();
    assert r.Keys() == [] && r.Values() == {};
    NoneAndPair();
    Bitmaps.AddRangeClosed(r, 0, 1);
    PairSlots(r.Keys(), r.Slots());
    PairLength();
    buf := new byte[15];
    n := Serialize(r, buf);
    PairImage(buf[..n]);
  }

  /** Their image, read and measured: one run, under key 0. */
  method PairRead() returns (answer: RoaringArray)
    ensures fresh(answer) && answer.Fits() && answer.Keys() == [0] && answer.Slots() == [RunC([Run(0, 1)])]
  {
    hide Reads;
    var buf: seq<byte> := [0x3B, 0x30, 0, 0, 1, 0, 0, 1, 0, 1, 0, 0, 0, 1, 0];
    PairImage(buf);
    var ok, readBytes;
    ok, answer, readBytes := Deserialize(buf);
    var bytestotal := DeserializeSize(buf);
    assert ok && readBytes == 15 && bytestotal == 15;
  }

  lemma PairLength()
    ensures PortableSize([RunC([Run(0, 1)])]) == 15
  {
    assert [RunC([Run(0, 1)])][0].RunC?;
    assert [RunC([Run(0, 1)])][..0] == [];
  }

  lemma NoneAndPair()
    ensures {} + Range(0, 2) == {0, 1}
  {
  }

  /** The two values in one run have one layout. */
  lemma PairSlots(keys: seq<u16>, cs: seq<Container>)
    requires Layout(keys, cs) && |cs| == 1 && cs[0].RunC? && Whole(keys, cs) == {0, 1}
    ensures keys == [0] && cs == [RunC([Run(0, 1)])]
  {
    hide Layout, Whole;
    var c := RunC([Run(0, 1)]);
    PairWhole(c);
    BitmapEquality.EqualSets(keys, cs, [0], [c]);
    Bitmaps.LayoutIs(keys, cs);
    Bitmaps.GoodAt(cs, 0);
    CanonicalUnique(cs[0].runs, c.runs);
  }

  lemma PairWhole(c: Container)
    requires c == RunC([Run(0, 1)])
    ensures Good(c) && Layout([0], [c]) && Whole([0], [c]) == {0, 1}
  {
    hide Elems, Layout;
    PairSize();
    assert Good(c) by { assert 0 in Elems(c); }
    Bitmaps.LayoutOne(0, c);
    forall k: int ensures At([0], [c], k) == if k == 0 then {0, 1} else {} { AtOne(0, c, k); }
  }
}
