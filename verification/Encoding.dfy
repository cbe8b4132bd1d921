/** What is written for a bitmap in the portable format, and that it is an image as the format describes it. */
module Encoding {
  import opened IntSets
  import opened Runs
  import opened Words
  import opened Bitsets
  import opened Bytes
  import opened ByteDigits
  import opened Containers
  import opened Format
  import opened SortedArrays
  import opened Slots
  import opened RoaringArrays
  import ContainerUpdates

  const SERIAL_COOKIE: nat := 12347
  const SERIAL_COOKIE_NO_RUNCONTAINER: nat := 12346
  const NO_OFFSET_THRESHOLD: nat := 4

  // ---------- the format ----------

  /** The bytes of one container. */
  function Body(c: Container): seq<byte> {
    match c
    case ArrayC(vals) => Concat(ValParts(vals))
    case BitsetC(words, _) => Concat(WordParts(words))
    case RunC(runs) => U16Bytes(|runs| % 0x1_0000) + Concat(RunParts(runs))
  }

  function ValParts(vals: seq<u16>): (parts: seq<seq<byte>>)
    ensures |parts| == |vals| && Uniform(parts, 2)
  {
    seq(|vals|, i requires 0 <= i < |vals| => U16Bytes(vals[i]))
  }

  function WordParts(words: seq<bv64>): (parts: seq<seq<byte>>)
    ensures |parts| == |words| && Uniform(parts, 8)
  {
    seq(|words|, i requires 0 <= i < |words| => WordBytes(words[i]))
  }

  function RunParts(runs: seq<Run>): (parts: seq<seq<byte>>)
    ensures |parts| == |runs| && Uniform(parts, 4)
  {
    seq(|runs|, i requires 0 <= i < |runs| => U16Bytes(runs[i].value) + U16Bytes(runs[i].length))
  }

  /** `container_size_in_bytes` */
  function SizeInBytes(c: Container): nat {
    match c
    case ArrayC(vals) => 2 * |vals|
    case BitsetC(_, _) => 8 * BITSET_WORDS
    case RunC(runs) => 2 + 4 * |runs|
  }

  lemma BodySize(c: Container)
    requires c.BitsetC? ==> |c.words| == BITSET_WORDS
    ensures |Body(c)| == SizeInBytes(c)
  {
    hide Concat, Uniform;
    match c {
      case ArrayC(vals) => UniformSize(ValParts(vals), 2);
      case BitsetC(words, _) => UniformSize(WordParts(words), 8);
      case RunC(runs) => UniformSize(RunParts(runs), 4);
    }
  }

  function SumSizes(cs: seq<Container>): nat {
    if cs == [] then 0 else SumSizes(cs[..|cs| - 1]) + SizeInBytes(cs[|cs| - 1])
  }

  predicate HasRun(cs: seq<Container>) {
    exists i :: 0 <= i < |cs| && cs[i].RunC?
  }

  predicate HasOffsets(hasrun: bool, n: nat) { !hasrun || n >= NO_OFFSET_THRESHOLD }

  /** `ra_portable_header_size` */
  function HeaderSize(hasrun: bool, n: nat): nat {
    if hasrun then
      if n < NO_OFFSET_THRESHOLD then 4 + (n + 7) / 8 + 4 * n else 4 + (n + 7) / 8 + 8 * n
    else 4 + 4 + 8 * n
  }

  /** `ra_portable_size_in_bytes` */
  function PortableSize(cs: seq<Container>): nat {
    HeaderSize(HasRun(cs), |cs|) + SumSizes(cs)
  }

  // ---------- run flags ----------

  function Mask(i: nat): byte
    requires i < 8
  {
    if i == 0 then 1 else if i == 1 then 2 else if i == 2 then 4 else if i == 3 then 8
    else if i == 4 then 16 else if i == 5 then 32 else if i == 6 then 64 else 128
  }

  predicate Tests(b: byte, i: nat)
    requires i < 8
  {
    b & Mask(i) != 0
  }

  lemma MaskTests(b: byte, i: nat, j: nat)
    requires i < 8 && j < 8
    ensures Tests(b | Mask(i), j) <==> i == j || Tests(b, j)
  {
  }

  /** Bit `k` of the flags. */
  predicate Flagged(flags: seq<byte>, k: nat)
    requires k / 8 < |flags|
  {
    Tests(flags[k / 8], k % 8)
  }

  function Zeros(n: nat): seq<byte> { seq(n, _ => 0) }

  /** One bit for every container, set for the runs; `s` bytes in all. */
  function Flags(cs: seq<Container>, s: nat): (flags: seq<byte>)
    requires |cs| <= 8 * s
    ensures |flags| == s
  {
    if cs == [] then Zeros(s)
    else
      var k := |cs| - 1;
      var flags := Flags(cs[..k], s);
      if cs[k].RunC? then flags[k / 8 := flags[k / 8] | Mask(k % 8)] else flags
  }

  lemma NoFlag(i: nat)
    requires i < 8
    ensures !Tests(0, i)
  {
  }

  /** A mask tests the digit of the same place. */
  lemma TestIsDigit(b: byte, i: nat)
    requires i < 8
    ensures Tests(b, i) <==> (b as int) / [1, 2, 4, 8, 16, 32, 64, 128][i] % 2 == 1
  {
    ByteTests(b);
  }

  lemma {:induction false} FlagsTest(cs: seq<Container>, s: nat, k: nat)
    requires |cs| <= 8 * s && k < 8 * s
    ensures Flagged(Flags(cs, s), k) <==> k < |cs| && cs[k].RunC?
  {
    hide Tests, Mask;
    if cs == [] {
      NoFlag(k % 8);
    } else {
      var n := |cs| - 1;
      var flags := Flags(cs[..n], s);
      FlagsTest(cs[..n], s, k);
      MaskTests(flags[n / 8], n % 8, k % 8);
      assert n / 8 == k / 8 && n % 8 == k % 8 ==> n == k;
    }
  }

  /** The flags say which containers are run lists, one binary digit for each; the padding digits are 0. */
  lemma FlagsTell(cs: seq<Container>, s: nat, k: nat)
    requires |cs| <= 8 * s && k < 8 * s
    ensures (Flags(cs, s)[k / 8] as int) / [1, 2, 4, 8, 16, 32, 64, 128][k % 8] % 2 == 1 <==> k < |cs| && cs[k].RunC?
  {
    hide Flags, Tests;
    FlagsTest(cs, s, k);
    TestIsDigit(Flags(cs, s)[k / 8], k % 8);
  }

  // ---------- the whole image ----------

  ghost function Descriptors(keys: seq<u16>, cs: seq<Container>): (parts: seq<seq<byte>>)
    requires |keys| == |cs|
    ensures |parts| == |keys| && Uniform(parts, 4)
  {
    seq(|keys|, i requires 0 <= i < |keys| => Descriptor(keys[i], |Elems(cs[i])|))
  }

  /** A key and its cardinality less one. */
  function Descriptor(key: u16, card: int): (b: seq<byte>)
    ensures |b| == 4
  {
    U16Bytes(key) + U16Bytes((card - 1) % 0x1_0000)
  }

  function Bodies(cs: seq<Container>): (parts: seq<seq<byte>>)
    ensures |parts| == |cs|
  {
    seq(|cs|, i requires 0 <= i < |cs| => Body(cs[i]))
  }

  /** Where the body of container `i` starts, in 32 bits. */
  function Offset(first: nat, cs: seq<Container>, i: nat): u32
    requires i <= |cs|
  {
    (first + |Concat(Bodies(cs)[..i])|) % 0x1_0000_0000
  }

  function Offsets(first: nat, cs: seq<Container>): (parts: seq<seq<byte>>)
    ensures |parts| == |cs| && Uniform(parts, 4)
  {
    seq(|cs|, i requires 0 <= i < |cs| => U32Bytes(Offset(first, cs, i)))
  }

  function Preamble(cs: seq<Container>): seq<byte>
    requires |cs| <= MAX_CONTAINERS
  {
    if HasRun(cs) then
      U32Bytes(SERIAL_COOKIE + 0x1_0000 * (|cs| - 1)) + Flags(cs, (|cs| + 7) / 8)
    else
      U32Bytes(SERIAL_COOKIE_NO_RUNCONTAINER) + U32Bytes(|cs|)
  }

  function OffsetTable(cs: seq<Container>): seq<byte> {
    var hasrun := HasRun(cs);
    if HasOffsets(hasrun, |cs|) then Concat(Offsets(HeaderSize(hasrun, |cs|), cs)) else []
  }

  ghost function Encode(keys: seq<u16>, cs: seq<Container>): seq<byte>
    requires |keys| == |cs| <= MAX_CONTAINERS
  {
    Preamble(cs) + (Concat(Descriptors(keys, cs)) + (OffsetTable(cs) + Concat(Bodies(cs))))
  }

  ghost predicate Shaped(cs: seq<Container>) {
    forall i :: 0 <= i < |cs| ==> (cs[i].BitsetC? ==> |cs[i].words| == BITSET_WORDS)
  }

  lemma {:induction false} BodiesSize(cs: seq<Container>)
    requires Shaped(cs)
    ensures |Concat(Bodies(cs))| == SumSizes(cs)
  {
    hide Body, SizeInBytes;
    if cs != [] {
      var k := |cs| - 1;
      BodiesSize(cs[..k]);
      BodySize(cs[k]);
      assert Bodies(cs)[..k] == Bodies(cs[..k]);
    }
  }

  lemma FrontSize(keys: seq<u16>, cs: seq<Container>)
    requires |keys| == |cs| <= MAX_CONTAINERS
    ensures |Preamble(cs)| + |Concat(Descriptors(keys, cs))| + |OffsetTable(cs)| == HeaderSize(HasRun(cs), |cs|)
    ensures |Preamble(cs)| == if HasRun(cs) then 4 + (|cs| + 7) / 8 else 8
    ensures |Concat(Descriptors(keys, cs))| == 4 * |cs|
    ensures |OffsetTable(cs)| == if HasOffsets(HasRun(cs), |cs|) then 4 * |cs| else 0
  {
    hide Concat, Uniform, Offset, HasRun;
    UniformSize(Descriptors(keys, cs), 4);
    UniformSize(Offsets(HeaderSize(HasRun(cs), |cs|), cs), 4);
  }

  /** The image has exactly the size that is computed beforehand. */
  lemma EncodeSize(keys: seq<u16>, cs: seq<Container>)
    requires |keys| == |cs| <= MAX_CONTAINERS && Shaped(cs)
    ensures |Encode(keys, cs)| == PortableSize(cs)
  {
    hide Concat, Uniform, Offset, HasRun, Descriptors, Bodies, Preamble, OffsetTable, HeaderSize;
    FrontSize(keys, cs);
    BodiesSize(cs);
  }

  // ---------- parts of an image ----------

  lemma SumNext(cs: seq<Container>, k: nat)
    requires k < |cs|
    ensures SumSizes(cs[..k + 1]) == SumSizes(cs[..k]) + SizeInBytes(cs[k])
  {
    assert cs[..k + 1][..k] == cs[..k];
  }

  lemma SumNothing(cs: seq<Container>)
    ensures SumSizes(cs[..0]) == 0
  {
  }

  lemma NoPieces(parts: seq<seq<byte>>)
    ensures Concat(parts[..0]) == []
  {
  }

  lemma HasOne(cs: seq<Container>)
    ensures HasRun(cs) ==> |cs| > 0
  {
  }

  lemma {:induction false} SumGrows(cs: seq<Container>, k: nat)
    requires k <= |cs|
    ensures SumSizes(cs[..k]) <= SumSizes(cs)
    decreases |cs|
  {
    hide SizeInBytes;
    if k == |cs| {
      assert cs[..k] == cs;
    } else {
      SumGrows(cs[..|cs| - 1], k);
      assert cs[..|cs| - 1][..k] == cs[..k];
    }
  }

  lemma LayoutShaped(keys: seq<u16>, cs: seq<Container>)
    requires Layout(keys, cs)
    ensures |keys| == |cs| && Shaped(cs)
  {
  }

  lemma StandsInside(b: seq<byte>, pos: nat, piece: seq<byte>)
    requires Stands(b, pos, piece)
    ensures pos + |piece| <= |b|
  {
  }

  /** Cardinalities fit their descriptors, and numbers of runs their prefix. */
  lemma CardFits(c: Container)
    requires Good(c)
    ensures 0 < |Elems(c)| <= 0x1_0000
    ensures c.ArrayC? ==> |Elems(c)| == |c.vals| <= MAX_ARRAY
    ensures c.BitsetC? ==> |c.words| == BITSET_WORDS && c.cardinality == |Elems(c)|
    ensures c.RunC? ==> |c.runs| < 0x1_0000
  {
    hide Denote, BitSet, Canonical, Elements, Sorted;
    ElemsBounds(c);
    NotEmpty(Elems(c));
    match c {
      case ArrayC(vals) => SortedSize(vals);
      case BitsetC(_, _) =>
      case RunC(runs) => ContainerUpdates.ValuesPerRun(runs); RunsBounded(runs);
    }
  }

  /** Every run but the last is followed by a gap, so there are at most 32768. */
  lemma {:induction false} RunsBounded(s: seq<Run>)
    requires Canonical(s)
    ensures |s| > 0 ==> s[|s| - 1].value >= 2 * (|s| - 1)
    ensures |s| <= 0x8000
  {
    if |s| > 1 {
      CanonicalSlice(s, 0, |s| - 1);
      RunsBounded(s[0..|s| - 1]);
      assert s[|s| - 2].End() < s[|s| - 1].value;
    }
  }

  lemma NotEmpty(s: set<int>)
    requires s != {}
    ensures |s| > 0
  {
  }

  /** Where the parts of an image stand. */
  lemma PartsStand(b: seq<byte>, keys: seq<u16>, cs: seq<Container>)
    requires |keys| == |cs| <= MAX_CONTAINERS && Stands(b, 0, Encode(keys, cs))
    ensures var hasrun := HasRun(cs);
      var n, keysAt, first := |cs|, |Preamble(cs)|, HeaderSize(hasrun, |cs|);
      && Stands(b, 0, Preamble(cs)) && Stands(b, keysAt, Concat(Descriptors(keys, cs)))
      && Stands(b, keysAt + 4 * n, OffsetTable(cs)) && Stands(b, first, Concat(Bodies(cs)))
      && keysAt == (if hasrun then 4 + (n + 7) / 8 else 8)
      && first == keysAt + 4 * n + (if HasOffsets(hasrun, n) then 4 * n else 0) <= |b|
  {
    hide Stands, Preamble, Concat, Descriptors, OffsetTable, Bodies, HasRun, HasOffsets;
    var p, d, o, c := Preamble(cs), Concat(Descriptors(keys, cs)), OffsetTable(cs), Concat(Bodies(cs));
    FrontSize(keys, cs);
    StandsSplit(b, 0, p, d + (o + c));
    StandsSplit(b, |p|, d, o + c);
    StandsSplit(b, |p| + |d|, o, c);
    StandsInside(b, |p| + |d| + |o|, c);
  }

  lemma NotAmong(cs: seq<Container>, k: nat)
    requires k < |cs|
    ensures cs[k].RunC? ==> HasRun(cs)
  {
  }

  lemma StandsFirst(piece: seq<byte>, rest: seq<byte>)
    ensures Stands(piece + rest, 0, piece)
  {
  }

  lemma SliceIs(b: seq<byte>, pos: nat, piece: seq<byte>)
    requires Stands(b, pos, piece)
    ensures pos + |piece| <= |b| && b[pos..pos + |piece|] == piece
  {
  }

  // ---------- the image, number by number ----------

  lemma ShortAt(b: seq<byte>, pos: nat, x: u16)
    requires Stands(b, pos, U16Bytes(x))
    ensures pos + 2 <= |b| && Le16(b, pos) == x
  {
    hide U16Bytes, U16Of;
    U16Back(x);
    U16Is(U16Bytes(x));
  }

  lemma LongAt(b: seq<byte>, pos: nat, x: u32)
    requires Stands(b, pos, U32Bytes(x))
    ensures pos + 4 <= |b| && Le32(b, pos) == x
  {
    hide U16Bytes, Stands;
    StandsSplit(b, pos, U16Bytes(x % 0x1_0000), U16Bytes(x / 0x1_0000));
    ShortAt(b, pos, x % 0x1_0000);
    ShortAt(b, pos + 2, x / 0x1_0000);
  }

  /** Bit `i` of a word is digit `i % 8` of its byte `i / 8`. */
  lemma WordAt(b: seq<byte>, pos: nat, w: bv64, i: nat)
    requires Stands(b, pos, WordBytes(w)) && i < 64
    ensures pos + 8 <= |b| && (Bit(w, i) <==> DigitAt(b, pos, i))
  {
    hide WordBytes, WordOf, Bit;
    WordBack(w);
    WordDigit(WordBytes(w), i / 8, i % 8);
  }

  lemma ValsAreAt(b: seq<byte>, pos: nat, vals: seq<u16>)
    requires Stands(b, pos, Concat(ValParts(vals)))
    ensures pos + 2 * |vals| <= |b| && forall i :: 0 <= i < |vals| ==> vals[i] == Le16(b, pos + 2 * i)
  {
    hide U16Bytes, Concat, Uniform, Stands;
    UniformSize(ValParts(vals), 2);
    StandsInside(b, pos, Concat(ValParts(vals)));
    forall i | 0 <= i < |vals| ensures vals[i] == Le16(b, pos + 2 * i) {
      StandsUniform(b, pos, ValParts(vals), 2, i);
      ShortAt(b, pos + i * 2, vals[i]);
    }
  }

  lemma BitsAreAt(b: seq<byte>, pos: nat, words: seq<bv64>)
    requires Stands(b, pos, Concat(WordParts(words))) && |words| == 1024
    ensures pos + 8192 <= |b| && forall x :: 0 <= x < 65536 ==> (x in BitSet(words) <==> DigitAt(b, pos, x))
  {
    hide WordBytes, Concat, Uniform, Stands, Bit, DigitAt;
    UniformSize(WordParts(words), 8);
    StandsInside(b, pos, Concat(WordParts(words)));
    forall x | 0 <= x < 65536 ensures x in BitSet(words) <==> DigitAt(b, pos, x) {
      StandsUniform(b, pos, WordParts(words), 8, x / 64);
      WordAt(b, pos + x / 64 * 8, words[x / 64], x % 64);
      DigitFurther(b, pos, x);
    }
  }

  /** Digit `x` counts on from digit 0 of every eighth byte. */
  lemma DigitFurther(b: seq<byte>, pos: nat, x: nat)
    requires pos + x / 64 * 8 + 8 <= |b|
    ensures pos + x / 8 < |b| && (DigitAt(b, pos + x / 64 * 8, x % 64) <==> DigitAt(b, pos, x))
  {
    assert x / 64 * 8 + x % 64 / 8 == x / 8 && x % 64 % 8 == x % 8;
  }

  lemma RunsAreAt(b: seq<byte>, pos: nat, runs: seq<Run>)
    requires Stands(b, pos, Concat(RunParts(runs)))
    ensures pos + 4 * |runs| <= |b|
    ensures forall i :: 0 <= i < |runs| ==>
      runs[i].value == Le16(b, pos + 4 * i) && runs[i].length == Le16(b, pos + 2 + 4 * i)
  {
    hide U16Bytes, Concat, Uniform, Stands;
    UniformSize(RunParts(runs), 4);
    StandsInside(b, pos, Concat(RunParts(runs)));
    forall i | 0 <= i < |runs|
      ensures runs[i].value == Le16(b, pos + 4 * i) && runs[i].length == Le16(b, pos + 2 + 4 * i)
    {
      StandsUniform(b, pos, RunParts(runs), 4, i);
      StandsSplit(b, pos + i * 4, U16Bytes(runs[i].value), U16Bytes(runs[i].length));
      ShortAt(b, pos + i * 4, runs[i].value);
      ShortAt(b, pos + i * 4 + 2, runs[i].length);
    }
  }

  /** The body of a container says what the container holds. */
  lemma BodyAt(b: seq<byte>, pos: nat, c: Container)
    requires Stands(b, pos, Body(c)) && (c.BitsetC? ==> |c.words| == 1024) && (c.RunC? ==> |c.runs| < 0x1_0000)
    ensures ContainerAt(b, pos, c)
  {
    hide Concat, Stands, ValParts, WordParts, RunParts, U16Bytes, DigitAt, BitSet, Le16;
    match c {
      case ArrayC(vals) => ValsAreAt(b, pos, vals);
      case BitsetC(words, _) => BitsAreAt(b, pos, words);
      case RunC(runs) =>
        StandsSplit(b, pos, U16Bytes(|runs| % 0x1_0000), Concat(RunParts(runs)));
        ShortAt(b, pos, |runs| % 0x1_0000);
        RunsAreAt(b, pos + 2, runs);
    }
  }

  lemma {:induction false} StartsAre(first: nat, cs: seq<Container>, k: nat)
    requires k <= |cs|
    ensures Starts(first, cs)[k] == first + SumSizes(cs[..k])
  {
    hide Starts;
    if k == 0 {
      SumNothing(cs);
    } else {
      StartsAre(first, cs, k - 1);
      SumNext(cs, k - 1);
    }
  }

  lemma BodyStart(cs: seq<Container>, k: nat)
    requires Shaped(cs) && k <= |cs|
    ensures |Concat(Bodies(cs)[..k])| == SumSizes(cs[..k])
  {
    hide Concat, Body;
    assert Bodies(cs)[..k] == Bodies(cs[..k]);
    BodiesSize(cs[..k]);
  }

  lemma HeaderIs(hasrun: bool, n: nat)
    ensures HeaderSize(hasrun, n) == BodiesAt(hasrun, n)
    ensures HasOffsets(hasrun, n) <==> !hasrun || n >= 4
  {
  }

  /** The cookie, and the run flags behind it. */
  lemma CookieIs(b: seq<byte>, cs: seq<Container>)
    requires |cs| <= MAX_CONTAINERS && Stands(b, 0, Preamble(cs))
    ensures |b| >= (if HasRun(cs) then 4 + (|cs| + 7) / 8 else 8) && CookieAt(b, HasRun(cs), |cs|)
    ensures HasRun(cs) ==> forall k :: 0 <= k < 8 * ((|cs| + 7) / 8) ==>
      (DigitAt(b, 4, k) <==> k < |cs| && cs[k].RunC?)
  {
    hide Stands, U32Bytes, Flags, HasRun, DigitAt, CookieAt;
    HasOne(cs);
    StandsInside(b, 0, Preamble(cs));
    LongSize(0);
    if HasRun(cs) {
      var s, cookie := (|cs| + 7) / 8, SERIAL_COOKIE + 0x1_0000 * (|cs| - 1);
      StandsSplit(b, 0, U32Bytes(cookie), Flags(cs, s));
      RunCookieIs(b, |cs|);
      forall k | 0 <= k < 8 * s ensures DigitAt(b, 4, k) <==> k < |cs| && cs[k].RunC? { FlagIs(b, 4, cs, s, k); }
    } else {
      StandsSplit(b, 0, U32Bytes(SERIAL_COOKIE_NO_RUNCONTAINER), U32Bytes(|cs|));
      LongAt(b, 0, SERIAL_COOKIE_NO_RUNCONTAINER);
      LongAt(b, 4, |cs|);
      PlainCookieIs(b, |cs|);
    }
  }

  lemma RunCookieIs(b: seq<byte>, n: nat)
    requires 0 < n <= 0x1_0000 && Stands(b, 0, U32Bytes(SERIAL_COOKIE + 0x1_0000 * (n - 1)))
    ensures |b| >= 4 && CookieAt(b, true, n)
  {
    hide U16Bytes, Stands, Le16;
    var cookie := SERIAL_COOKIE + 0x1_0000 * (n - 1);
    Halves16(cookie, SERIAL_COOKIE, n - 1);
    StandsSplit(b, 0, U16Bytes(cookie % 0x1_0000), U16Bytes(cookie / 0x1_0000));
    ShortAt(b, 0, SERIAL_COOKIE);
    ShortAt(b, 2, n - 1);
  }

  lemma Halves16(x: int, low: int, high: int)
    requires x == low + 0x1_0000 * high && 0 <= low < 0x1_0000
    ensures x % 0x1_0000 == low && x / 0x1_0000 == high
  {
  }

  lemma PlainCookieIs(b: seq<byte>, n: nat)
    requires |b| >= 8 && Le32(b, 0) == SERIAL_COOKIE_NO_RUNCONTAINER && Le32(b, 4) == n
    ensures CookieAt(b, false, n)
  {
  }

  lemma FlagIs(b: seq<byte>, pos: nat, cs: seq<Container>, s: nat, k: nat)
    requires |cs| <= 8 * s && k < 8 * s && Stands(b, pos, Flags(cs, s))
    ensures pos + k / 8 < |b| && (DigitAt(b, pos, k) <==> k < |cs| && cs[k].RunC?)
  {
    hide Flags;
    FlagsTell(cs, s, k);
    SliceIs(b, pos, Flags(cs, s));
    assert b[pos..pos + s][k / 8] == b[pos + k / 8];
  }

  lemma LongSize(x: u32)
    ensures |U32Bytes(x)| == 4
  {
  }

  lemma SlotIs(b: seq<byte>, keys: seq<u16>, cs: seq<Container>, k: nat)
    requires |keys| == |cs| <= MAX_CONTAINERS && AllGood(cs) && b == Encode(keys, cs) && k < |cs|
    ensures BodiesAt(HasRun(cs), |cs|) <= |b|
    ensures SlotAt(b, HasRun(cs), keys, cs, k, BodiesAt(HasRun(cs), |cs|) + SumSizes(cs[..k]))
  {
    hide Encode, Stands, U16Bytes, U32Bytes, Concat, HasRun, Good, Elems, Preamble, Uniform, DigitAt, ContainerAt,
      Bodies, Offsets, Descriptors, Body, SumSizes, Le16, Le32, HeaderSize, CookieAt, Shaped;
    var hasrun, n := HasRun(cs), |cs|;
    var keysAt, first := KeysAt(hasrun, n), BodiesAt(hasrun, n);
    ImageStands(b, keys, cs);
    PartsStand(b, keys, cs);
    HeaderIs(hasrun, n);
    CookieIs(b, cs);
    AllShaped(cs);
    BodyStart(cs, k);
    DescriptorIs(b, keysAt, keys, cs, k);
    if !hasrun || n >= 4 { OffsetIs(b, keysAt + 4 * n, first, cs, k); }
    StandsPiece(b, first, Bodies(cs), k);
    BodiesAre(cs, k);
    CardFits(cs[k]);
    BodyAt(b, first + SumSizes(cs[..k]), cs[k]);
  }

  lemma ImageStands(b: seq<byte>, keys: seq<u16>, cs: seq<Container>)
    requires |keys| == |cs| <= MAX_CONTAINERS && b == Encode(keys, cs)
    ensures Stands(b, 0, Encode(keys, cs))
  {
    hide Encode;
  }

  lemma AllShaped(cs: seq<Container>)
    requires AllGood(cs)
    ensures Shaped(cs)
  {
  }

  lemma BodiesAre(cs: seq<Container>, k: nat)
    requires k < |cs|
    ensures Bodies(cs)[k] == Body(cs[k])
  {
  }

  lemma DescriptorIs(b: seq<byte>, keysAt: nat, keys: seq<u16>, cs: seq<Container>, k: nat)
    requires |keys| == |cs| && k < |cs| && Good(cs[k]) && Stands(b, keysAt, Concat(Descriptors(keys, cs)))
    ensures keysAt + 4 * k + 4 <= |b|
    ensures Le16(b, keysAt + 4 * k) == keys[k] && Le16(b, keysAt + 4 * k + 2) == |Elems(cs[k])| - 1
  {
    hide U16Bytes, Concat, Uniform, Stands, Good, Elems, Le16;
    var at, card := keysAt + 4 * k, |Elems(cs[k])|;
    CardFits(cs[k]);
    StandsUniform(b, keysAt, Descriptors(keys, cs), 4, k);
    StandsSplit(b, at, U16Bytes(keys[k]), U16Bytes((card - 1) % 0x1_0000));
    ShortAt(b, at, keys[k]);
    ShortAt(b, at + 2, card - 1);
  }

  lemma OffsetIs(b: seq<byte>, pos: nat, first: nat, cs: seq<Container>, k: nat)
    requires Shaped(cs) && k < |cs| && Stands(b, pos, Concat(Offsets(first, cs)))
    ensures pos + 4 * k + 4 <= |b| && Le32(b, pos + 4 * k) == (first + SumSizes(cs[..k])) % 0x1_0000_0000
  {
    hide U32Bytes, Concat, Uniform, Stands, Bodies, Le32, SumSizes;
    BodyStart(cs, k);
    StandsUniform(b, pos, Offsets(first, cs), 4, k);
    LongAt(b, pos + 4 * k, Offset(first, cs, k));
  }

  /** What is written is an image as the format describes it. */
  lemma EncodeIsImage(keys: seq<u16>, cs: seq<Container>)
    requires |keys| == |cs| <= MAX_CONTAINERS && AllGood(cs)
    ensures IsImage(Encode(keys, cs), keys, cs)
  {
    hide Encode, Stands, HasRun, Preamble, DigitAt, SlotAt, CookieAt, Starts, SumSizes, Good, Descriptors, Bodies,
      OffsetTable, Concat, BodiesAt, HeaderSize;
    var b, n, hasrun := Encode(keys, cs), |cs|, HasRun(cs);
    RunIsSome(cs);
    ImageSize(b, keys, cs);
    ImageStands(b, keys, cs);
    PartsStand(b, keys, cs);
    CookieIs(b, cs);
    forall k | 0 <= k < n ensures SlotAt(b, hasrun, keys, cs, k, Starts(BodiesAt(hasrun, n), cs)[k]) {
      SlotIs(b, keys, cs, k);
      StartsAre(BodiesAt(hasrun, n), cs, k);
    }
  }

  /** The first two bytes of every image. */
  lemma FirstBytes(b: seq<byte>, keys: seq<u16>, cs: seq<Container>)
    requires IsImage(b, keys, cs)
    ensures |b| >= 4 && b[1] == 0x30 && b[0] == if exists i :: 0 <= i < |cs| && cs[i].RunC? then 0x3B else 0x3A
  {
    hide SlotAt, Starts, DigitAt;
    if !AnyRun(cs) { LowHalf(b, 0); }
    CookieBytes(b);
  }

  lemma CookieBytes(b: seq<byte>)
    requires |b| >= 2
    ensures Le16(b, 0) == 12346 ==> b[0] == 0x3A && b[1] == 0x30
    ensures Le16(b, 0) == 12347 ==> b[0] == 0x3B && b[1] == 0x30
  {
  }

  lemma LowHalf(b: seq<byte>, p: nat)
    requires p + 4 <= |b| && Le32(b, p) < 65536
    ensures Le16(b, p) == Le32(b, p) && Le16(b, p + 2) == 0
  {
    hide Le16;
  }

  lemma ImageSize(b: seq<byte>, keys: seq<u16>, cs: seq<Container>)
    requires |keys| == |cs| <= MAX_CONTAINERS && AllGood(cs) && b == Encode(keys, cs)
    ensures |b| == Starts(BodiesAt(HasRun(cs), |cs|), cs)[|cs|] >= BodiesAt(HasRun(cs), |cs|)
  {
    hide Encode, HasRun, Starts, SumSizes, Good;
    AllShaped(cs);
    EncodeSize(keys, cs);
    HeaderIs(HasRun(cs), |cs|);
    StartsAre(BodiesAt(HasRun(cs), |cs|), cs, |cs|);
    assert cs[..|cs|] == cs;
  }

  lemma RunIsSome(cs: seq<Container>)
    ensures HasRun(cs) == AnyRun(cs)
  {
  }
}
