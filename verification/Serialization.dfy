/** Writing the portable format. */
module Serialization {
  import opened IntSets
  import opened Bytes
  import opened Containers
  import opened Slots
  import opened RoaringArrays
  import opened Encoding
  import opened Format
  import Bitmaps
  import ContainerQueries

  /** The bytes may be written without touching the bitmap. */
  ghost predicate Apart(ra: RoaringArray, buf: array<byte>)
    reads ra
  {
    buf as object != ra.keys as object && buf as object != ra.containers as object
  }

  /** A bitmap whose slots are known. */
  ghost predicate Has(ra: RoaringArray, keys: seq<u16>, cs: seq<Container>)
    reads ra, ra.keys, ra.containers
  {
    ra.Fits() && ra.Keys() == keys && ra.Slots() == cs
  }

  /** `ra_has_run_container` */
  method HasRunContainer(ra: RoaringArray) returns (b: bool)
    requires ra.Fits()
    ensures b <==> HasRun(ra.Slots())
  {
    var k := 0;
    while k < ra.size
      invariant k <= ra.size && forall i :: 0 <= i < k ==> !ra.containers[i].RunC?
    {
      if ra.containers[k].RunC? {
        assert ra.Slots()[k].RunC?;
        return true;
      }
      k := k + 1;
    }
    return false;
  }

  /** `ra_portable_size_in_bytes` */
  method PortableSizeInBytes(ra: RoaringArray) returns (count: nat)
    requires ra.Fits()
    ensures count == PortableSize(ra.Slots())
  {
    hide SumSizes, SizeInBytes, HasRun;
    ghost var cs := ra.Slots();
    var hasrun := HasRunContainer(ra);
    var header := HeaderSize(hasrun, ra.size);
    count := header;
    SumNothing(cs);
    var k := 0;
    while k < ra.size
      invariant k <= ra.size && count == header + SumSizes(cs[..k])
    {
      SumNext(cs, k);
      count := count + SizeInBytes(ra.containers[k]);
      k := k + 1;
    }
    assert cs[..k] == cs;
  }

  lemma PutNext(front: seq<byte>, parts: seq<seq<byte>>, k: nat)
    requires k < |parts|
    ensures front + Concat(parts[..k + 1]) == front + Concat(parts[..k]) + parts[k]
  {
    ConcatNext(parts, k);
  }

  lemma NoFlags(s: nat)
    ensures Flags([], s) == Zeros(s)
  {
  }

  lemma FlagsNext(cs: seq<Container>, s: nat, i: nat)
    requires i < |cs| <= 8 * s
    ensures var flags := Flags(cs[..i], s);
      Flags(cs[..i + 1], s) == if cs[i].RunC? then flags[i / 8 := flags[i / 8] | Mask(i % 8)] else flags
  {
    hide Mask;
    assert cs[..i + 1][..i] == cs[..i];
  }

  /** The temporary `bitmapOfRunContainers`. */
  method RunFlags(ra: RoaringArray) returns (flags: seq<byte>)
    requires ra.Fits()
    ensures flags == Flags(ra.Slots(), (ra.size + 7) / 8)
  {
    hide Mask, Flags;
    ghost var cs := ra.Slots();
    var s := (ra.size + 7) / 8;
    var bitmap := new byte[s](_ => 0);
    assert bitmap[..] == Zeros(s) && cs[..0] == [];
    NoFlags(s);
    var i := 0;
    while i < ra.size
      invariant i <= ra.size && ra.Fits() && ra.Slots() == cs
      invariant bitmap[..] == Flags(cs[..i], s)
    {
      FlagsNext(cs, s, i);
      assert ra.containers[i] == cs[i];
      if ra.containers[i].RunC? {
        bitmap[i / 8] := bitmap[i / 8] | Mask(i % 8);
      }
      i := i + 1;
    }
    assert cs[..i] == cs;
    flags := bitmap[..];
  }

  method WritePreamble(ra: RoaringArray, buf: array<byte>, hasrun: bool) returns (pos: nat)
    requires ra.Fits() && Apart(ra, buf) && (hasrun <==> HasRun(ra.Slots()))
    requires HeaderSize(hasrun, ra.size) <= buf.Length
    modifies buf
    ensures pos == |Preamble(ra.Slots())| <= buf.Length && buf[..pos] == Preamble(ra.Slots())
    ensures ra.Keys() == old(ra.Keys()) && ra.Slots() == old(ra.Slots())
  {
    hide Flags, U32Bytes;
    if hasrun {
      HasOne(ra.Slots());
      pos := Put(buf, 0, U32Bytes(SERIAL_COOKIE + 0x1_0000 * (ra.size - 1)));
      var flags := RunFlags(ra);
      pos := Put(buf, pos, flags);
    } else {
      pos := Put(buf, 0, U32Bytes(SERIAL_COOKIE_NO_RUNCONTAINER));
      pos := Put(buf, pos, U32Bytes(ra.size));
    }
  }

  method WriteDescriptors(ra: RoaringArray, buf: array<byte>, start: nat) returns (pos: nat)
    requires ra.Valid() && Apart(ra, buf) && start + 4 * ra.size <= buf.Length
    modifies buf
    ensures ra.Keys() == old(ra.Keys()) && ra.Slots() == old(ra.Slots()) && pos == start + 4 * ra.size
    ensures buf[..pos] == old(buf[..start]) + Concat(Descriptors(ra.Keys(), ra.Slots()))
  {
    hide Concat, U16Bytes, Elems, Layout, Good;
    ghost var keys, cs, front := ra.Keys(), ra.Slots(), buf[..start];
    ghost var parts := Descriptors(keys, cs);
    Bitmaps.LayoutIs(keys, cs);
    NoPieces(parts);
    pos := start;
    var k := 0;
    while k < ra.size
      invariant k <= ra.size && Has(ra, keys, cs)
      invariant pos == start + 4 * k && buf[..pos] == front + Concat(parts[..k])
    {
      assert ra.keys[k] == keys[k] && ra.containers[k] == cs[k];
      Bitmaps.GoodAt(cs, k);
      var card := ContainerQueries.Cardinality(ra.containers[k]);
      PutNext(front, parts, k);
      pos := Put(buf, pos, Descriptor(ra.keys[k], card));
      k := k + 1;
    }
    assert parts[..k] == parts;
  }

  method WriteOffsets(ra: RoaringArray, buf: array<byte>, start: nat, first: nat) returns (pos: nat)
    requires ra.Fits() && Shaped(ra.Slots()) && Apart(ra, buf) && start + 4 * ra.size <= buf.Length
    modifies buf
    ensures ra.Keys() == old(ra.Keys()) && ra.Slots() == old(ra.Slots()) && pos == start + 4 * ra.size
    ensures buf[..pos] == old(buf[..start]) + Concat(Offsets(first, ra.Slots()))
  {
    hide Concat, U32Bytes, SizeInBytes, Body;
    ghost var keys, cs, front := ra.Keys(), ra.Slots(), buf[..start];
    ghost var parts := Offsets(first, cs);
    NoPieces(parts);
    NoPieces(Bodies(cs));
    pos := start;
    var startOffset: u32 := first % 0x1_0000_0000;
    var k := 0;
    while k < ra.size
      invariant k <= ra.size && Has(ra, keys, cs) && startOffset == Offset(first, cs, k)
      invariant pos == start + 4 * k && buf[..pos] == front + Concat(parts[..k])
    {
      assert ra.containers[k] == cs[k];
      PutNext(front, parts, k);
      ConcatNext(Bodies(cs), k);
      BodySize(cs[k]);
      OffsetNext(first, |Concat(Bodies(cs)[..k])|, SizeInBytes(cs[k]));
      pos := Put(buf, pos, U32Bytes(startOffset));
      startOffset := (startOffset + SizeInBytes(ra.containers[k])) % 0x1_0000_0000;
      k := k + 1;
    }
    assert parts[..k] == parts;
  }

  lemma OffsetNext(first: nat, n: nat, m: nat)
    ensures ((first + n) % 0x1_0000_0000 + m) % 0x1_0000_0000 == (first + (n + m)) % 0x1_0000_0000
  {
  }

  method WriteBodies(ra: RoaringArray, buf: array<byte>, start: nat) returns (pos: nat)
    requires ra.Fits() && Shaped(ra.Slots()) && Apart(ra, buf) && start + SumSizes(ra.Slots()) <= buf.Length
    modifies buf
    ensures ra.Keys() == old(ra.Keys()) && ra.Slots() == old(ra.Slots()) && pos == start + SumSizes(ra.Slots())
    ensures buf[..pos] == old(buf[..start]) + Concat(Bodies(ra.Slots()))
  {
    hide Concat, SizeInBytes, Body, SumSizes;
    ghost var keys, cs, front := ra.Keys(), ra.Slots(), buf[..start];
    ghost var parts := Bodies(cs);
    NoPieces(parts);
    SumNothing(cs);
    pos := start;
    var k := 0;
    while k < ra.size
      invariant k <= ra.size && Has(ra, keys, cs)
      invariant pos == start + SumSizes(cs[..k]) <= buf.Length && buf[..pos] == front + Concat(parts[..k])
    {
      assert ra.containers[k] == cs[k];
      PutNext(front, parts, k);
      SumNext(cs, k);
      SumGrows(cs, k + 1);
      BodySize(cs[k]);
      pos := Put(buf, pos, Body(ra.containers[k]));
      k := k + 1;
    }
    assert parts[..k] == parts && cs[..k] == cs;
  }

  lemma Assembled(p: seq<byte>, d: seq<byte>, o: seq<byte>, b: seq<byte>)
    ensures p + d + o + b == p + (d + (o + b))
    ensures o == [] ==> p + d + b == p + (d + (o + b))
  {
  }

  /** `ra_portable_serialize` */
  method Serialize(ra: RoaringArray, buf: array<byte>) returns (n: nat)
    requires ra.Valid() && Apart(ra, buf) && PortableSize(ra.Slots()) <= buf.Length
    modifies buf
    ensures ra.Keys() == old(ra.Keys()) && ra.Slots() == old(ra.Slots())
    ensures n == PortableSize(ra.Slots()) && buf[..n] == Encode(ra.Keys(), ra.Slots())
    ensures IsImage(buf[..n], ra.Keys(), ra.Slots())
    ensures n >= 4 && buf[..n][1] == 0x30
    ensures buf[..n][0] == if exists i :: 0 <= i < |ra.Slots()| && ra.Slots()[i].RunC? then 0x3B else 0x3A
  {
    hide Concat, Descriptors, Bodies, Preamble, Offsets, SumSizes, Layout, HasRun, IsImage, AllGood, Uniform, Shaped;
    ghost var keys, cs := ra.Keys(), ra.Slots();
    Bitmaps.LayoutIs(keys, cs);
    LayoutShaped(keys, cs);
    FrontSize(keys, cs);
    EncodeSize(keys, cs);
    EncodeIsImage(keys, cs);
    FirstBytes(Encode(keys, cs), keys, cs);
    var hasrun := HasRunContainer(ra);
    var startOffset := HeaderSize(hasrun, ra.size);
    var pos := WritePreamble(ra, buf, hasrun);
    pos := WriteDescriptors(ra, buf, pos);
    if !hasrun || ra.size >= NO_OFFSET_THRESHOLD {
      pos := WriteOffsets(ra, buf, pos, startOffset);
    }
    n := WriteBodies(ra, buf, pos);
    Assembled(Preamble(cs), Concat(Descriptors(keys, cs)), OffsetTable(cs), Concat(Bodies(cs)));
  }
}
