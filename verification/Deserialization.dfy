/** Reading the portable format back, and when that gives the bitmap that was written. */
module Deserialization {
  import opened IntSets
  import opened Runs
  import opened Words
  import opened Bytes
  import opened ByteDigits
  import opened Bitsets
  import opened Containers
  import opened Slots
  import opened RoaringArrays
  import opened Encoding
  import opened Serialization
  import opened Format
  import opened SortedArrays
  import Bitmaps
  import ContainerUpdates

  // ---------- what a buffer says ----------

  function U16At(b: seq<byte>, pos: nat): u16
    requires pos + 2 <= |b|
  {
    U16Of(b[pos..pos + 2])
  }

  function U32At(b: seq<byte>, pos: nat): u32
    requires pos + 4 <= |b|
  {
    U32Of(b[pos..pos + 4])
  }

  datatype Header =
    | BadHeader
    | Header(size: nat, hasrun: bool, flagsAt: nat, keysAt: nat, bodiesAt: nat)

  predicate Fits(h: Header, b: seq<byte>) {
    && h.Header? && h.size <= MAX_CONTAINERS
    && h.keysAt == h.flagsAt + (if h.hasrun then (h.size + 7) / 8 else 0)
    && h.keysAt + 4 * h.size <= h.bodiesAt <= |b|
  }

  function ReadHeader(b: seq<byte>): (h: Header)
    ensures h.Header? ==> Fits(h, b)
  {
    if |b| < 4 then BadHeader
    else
      var cookie := U32At(b, 0);
      if cookie % 0x1_0000 == SERIAL_COOKIE then Sections(b, cookie / 0x1_0000 + 1, true, 4)
      else if cookie != SERIAL_COOKIE_NO_RUNCONTAINER || |b| < 8 then BadHeader
      else Sections(b, U32At(b, 4), false, 8)
  }

  /** The sections behind the cookie. */
  function Sections(b: seq<byte>, size: nat, hasrun: bool, flagsAt: nat): (h: Header)
    ensures h.Header? ==> Fits(h, b)
  {
    var keysAt := flagsAt + (if hasrun then (size + 7) / 8 else 0);
    var bodiesAt := keysAt + 4 * size + (if HasOffsets(hasrun, size) then 4 * size else 0);
    if size > MAX_CONTAINERS || bodiesAt > |b| then BadHeader
    else Header(size, hasrun, flagsAt, keysAt, bodiesAt)
  }

  function KeysOf(b: seq<byte>, h: Header): (keys: seq<u16>)
    requires Fits(h, b)
    ensures |keys| == h.size
  {
    seq(h.size, k requires 0 <= k < h.size => U16At(b, h.keysAt + 4 * k))
  }

  datatype Piece = TooShort | Piece(container: Container, pos: nat)

  /** One container: the cardinality and the run flag say which kind it is. */
  function ReadContainer(b: seq<byte>, pos: nat, card: nat, isrun: bool): (p: Piece)
    ensures p.Piece? ==> pos <= p.pos <= |b|
    ensures p.Piece? && p.container.BitsetC? ==> p.container.cardinality == card > MAX_ARRAY
  {
    if card > MAX_ARRAY && !isrun then
      if pos + 8 * BITSET_WORDS > |b| then TooShort
      else Piece(BitsetC(WordsAt(b, pos, BITSET_WORDS), card), pos + 8 * BITSET_WORDS)
    else if isrun then
      if pos + 2 > |b| then TooShort
      else
        var nRuns := U16At(b, pos);
        if pos + 2 + 4 * nRuns > |b| then TooShort
        else Piece(RunC(RunsAt(b, pos + 2, nRuns)), pos + 2 + 4 * nRuns)
    else
      if pos + 2 * card > |b| then TooShort
      else Piece(ArrayC(ValsAt(b, pos, card)), pos + 2 * card)
  }

  function WordsAt(b: seq<byte>, pos: nat, n: nat): (words: seq<bv64>)
    requires pos + 8 * n <= |b|
    ensures |words| == n
  {
    seq(n, i requires 0 <= i < n => WordOf(b[pos + 8 * i..pos + 8 * i + 8]))
  }

  function ValsAt(b: seq<byte>, pos: nat, n: nat): (vals: seq<u16>)
    requires pos + 2 * n <= |b|
    ensures |vals| == n
  {
    seq(n, i requires 0 <= i < n => U16At(b, pos + 2 * i))
  }

  function RunsAt(b: seq<byte>, pos: nat, n: nat): (runs: seq<Run>)
    requires pos + 4 * n <= |b|
    ensures |runs| == n
  {
    seq(n, i requires 0 <= i < n => Run(U16At(b, pos + 4 * i), U16At(b, pos + 4 * i + 2)))
  }

  function CardAt(b: seq<byte>, h: Header, k: nat): nat
    requires Fits(h, b) && k < h.size
  {
    U16At(b, h.keysAt + 4 * k + 2) + 1
  }

  predicate RunAt(b: seq<byte>, h: Header, k: nat)
    requires Fits(h, b) && k < h.size
  {
    h.hasrun && Flagged(b[h.flagsAt..h.keysAt], k)
  }

  datatype Progress = Failed | Progress(cs: seq<Container>, pos: nat)

  /** The first `k` containers. */
  function ReadBodies(b: seq<byte>, h: Header, k: nat): (p: Progress)
    requires Fits(h, b) && k <= h.size
    ensures p.Progress? ==> |p.cs| == k && h.bodiesAt <= p.pos <= |b|
  {
    if k == 0 then Progress([], h.bodiesAt)
    else
      var p := ReadBodies(b, h, k - 1);
      if p.Failed? then Failed
      else
        var q := ReadContainer(b, p.pos, CardAt(b, h, k - 1), RunAt(b, h, k - 1));
        if q.TooShort? then Failed else Progress(p.cs + [q.container], q.pos)
  }

  datatype Parsed = Malformed | Parsed(keys: seq<u16>, cs: seq<Container>, readBytes: nat)

  function Decode(b: seq<byte>): Parsed {
    var h := ReadHeader(b);
    if h.BadHeader? then Malformed
    else
      var p := ReadBodies(b, h, h.size);
      if p.Failed? then Malformed else Parsed(KeysOf(b, h), p.cs, p.pos)
  }

  // ---------- sizes with the sign bit set ----------

  /** An `int` whose 32 bits are those of `x`. */
  function Signed(x: u32): (n: int)
    ensures -0x8000_0000 <= n < 0x8000_0000
  {
    if x < 0x8000_0000 then x else x - 0x1_0000_0000
  }

  /** The product of two `int`s, in two's complement. */
  function Times(x: int, y: int): (n: int)
    ensures -0x8000_0000 <= n < 0x8000_0000
  {
    Signed(x * y % 0x1_0000_0000)
  }

  /** A sum of `size_t`. */
  function Plus(x: int, y: int): (n: nat) { (x + y) % 0x1_0000_0000_0000_0000 }

  /** The size field of a bitmap without runs has its sign bit set. */
  predicate NegativeSize(b: seq<byte>) {
    |b| >= 8 && U32At(b, 0) == SERIAL_COOKIE_NO_RUNCONTAINER && U32At(b, 4) >= 0x8000_0000
  }

  /**
   What the sections of a negative size add up to when `m` is the size without its sign bit. The first product loses the
   sign bit; the second one is taken modulo 2^32 and added as a signed number.
   */
  function WrappedKeys(m: nat): nat { 8 + 4 * m }

  function WrappedTotal(m: nat): int { if m < 0x2000_0000 then 8 + 8 * m else 8 + 8 * m - 0x1_0000_0000 }

  /** A negative size that the wrapped sums make look like a small one. */
  predicate Misread(b: seq<byte>) {
    && NegativeSize(b)
    && var m := U32At(b, 4) - 0x8000_0000;
       m < 0x4000_0000 && WrappedKeys(m) <= |b| && WrappedTotal(m) <= |b|
  }

  /** The wrapped sums of a negative size that lose their signs. */
  lemma WrappedSums(x: u32, m: nat)
    requires x == m + 0x8000_0000 && m < 0x4000_0000
    ensures Plus(8, Times(Signed(x), 2) * 2) == WrappedKeys(m)
    ensures Plus(WrappedKeys(m), Times(Signed(x), 4)) == WrappedTotal(m) > 0
  {
    Modulo(Signed(x) * 2, 2 * m, -1);
    Modulo(Signed(x) * 4, 4 * m, -2);
  }

  lemma Modulo(x: int, r: int, q: int)
    requires x == r + q * 0x1_0000_0000 && 0 <= r < 0x1_0000_0000
    ensures x % 0x1_0000_0000 == r
  {
  }

  /** Those of the other negative sizes are 0, or larger than any buffer. */
  lemma NegativeSums(x: u32)
    requires x >= 0xC000_0000
    ensures var keys := Plus(8, Times(Signed(x), 2) * 2);
      keys < 0x8000_0000_0000_0000 ==>
        var total := Plus(keys, Times(Signed(x), 4)); total == 0 || total >= 0x8000_0000_0000_0000
  {
    var size := Signed(x);
    Modulo(size * 2, size * 2 + 0x1_0000_0000, -1);
    if size >= -2 {
      Modulo(size * 4, size * 4 + 0x1_0000_0000, -1);
    } else {
      assert 8 + Times(size, 2) * 2 < 0;
    }
  }

  /** A size that no bitmap exceeds is summed without wrapping. */
  lemma SmallSums(start: nat, size: nat)
    requires size <= MAX_CONTAINERS && start <= 0x1_0000
    ensures Plus(start, Times(size, 2) * 2) == start + 4 * size
    ensures Plus(start + 4 * size, Times(size, 4)) == start + 8 * size
  {
    assert size * 2 % 0x1_0000_0000 == size * 2 && size * 4 % 0x1_0000_0000 == size * 4;
  }

  // ---------- the reader ----------

  lemma {:induction false} FailedStays(b: seq<byte>, h: Header, k: nat, n: nat)
    requires Fits(h, b) && k <= n <= h.size && ReadBodies(b, h, k).Failed?
    ensures ReadBodies(b, h, n).Failed?
    decreases n
  {
    hide ReadContainer;
    if k < n { FailedStays(b, h, k, n - 1); }
  }

  lemma ReadNothing(b: seq<byte>, h: Header)
    requires Fits(h, b)
    ensures ReadBodies(b, h, 0) == Progress([], h.bodiesAt)
  {
  }

  lemma ReadNext(b: seq<byte>, h: Header, k: nat)
    requires Fits(h, b) && k < h.size && ReadBodies(b, h, k).Progress?
    ensures var p, q := ReadBodies(b, h, k), ReadContainer(b, ReadBodies(b, h, k).pos, CardAt(b, h, k), RunAt(b, h, k));
      ReadBodies(b, h, k + 1) == if q.TooShort? then Failed else Progress(p.cs + [q.container], q.pos)
  {
  }

  /**
   The header part of `ra_portable_deserialize`: every section is checked against the buffer before it is read. A
   negative size passes the test for large ones; it fails when the arrays are made, if not before.
   */
  method DeserializeHeader(buf: seq<byte>)
    returns (ok: bool, size: int, hasrun: bool, flagsAt: nat, keyscards: nat, readBytes: nat)
    ensures ok <==> ReadHeader(buf).Header?
    ensures ok ==> size >= 0 && ReadHeader(buf) == Header(size, hasrun, flagsAt, keyscards, readBytes)
  {
    hide U32Of, Times, Plus;
    ok, size, hasrun, flagsAt, keyscards := false, 0, false, 0, 0;
    readBytes := 4;
    if readBytes > |buf| {
      return;
    }
    var cookie := U32At(buf, 0);
    if cookie % 0x1_0000 != SERIAL_COOKIE && cookie != SERIAL_COOKIE_NO_RUNCONTAINER {
      return;
    }
    hasrun := cookie % 0x1_0000 == SERIAL_COOKIE;
    if hasrun {
      size := cookie / 0x1_0000 + 1;
    } else {
      readBytes := readBytes + 4;
      if readBytes > |buf| {
        return;
      }
      size := Signed(U32At(buf, 4));
    }
    if size > MAX_CONTAINERS {
      return;
    }
    flagsAt := readBytes;
    if hasrun {
      readBytes := readBytes + (size + 7) / 8;
      if readBytes > |buf| {
        return;
      }
    }
    keyscards := readBytes;
    if size >= 0 { SmallSums(readBytes, size); }
    readBytes := Plus(readBytes, Times(size, 2) * 2);
    if readBytes > |buf| {
      return;
    }
    var cap: u32 := size % 0x1_0000_0000;
    if cap > 0x7FFF_FFFF {
      return;
    }
    if !hasrun || size >= NO_OFFSET_THRESHOLD {
      readBytes := Plus(readBytes, Times(size, 4));
      if readBytes > |buf| {
        return;
      }
    }
    ok := true;
  }

  /** The body of the loop of `ra_portable_deserialize`: reads one container, unless the buffer is too short. */
  method DeserializeContainer(buf: seq<byte>, pos: nat, thiscard: nat, isrun: bool)
    returns (ok: bool, c: Container, readBytes: nat)
    requires pos <= |buf| && thiscard > 0
    ensures ok <==> ReadContainer(buf, pos, thiscard, isrun).Piece?
    ensures ok ==> ReadContainer(buf, pos, thiscard, isrun) == Piece(c, readBytes)
  {
    hide U16Of;
    ok, c, readBytes := false, ArrayC([]), pos;
    var isbitmap := thiscard > MAX_ARRAY;
    if isrun {
      isbitmap := false;
    }
    if isbitmap {
      readBytes := readBytes + BITSET_WORDS * 8;
      if readBytes > |buf| {
        return;
      }
      c := BitsetC(WordsAt(buf, pos, BITSET_WORDS), thiscard);
    } else if isrun {
      readBytes := readBytes + 2;
      if readBytes > |buf| {
        return;
      }
      var nRuns: nat := U16At(buf, pos);
      readBytes := readBytes + nRuns * 4;
      if readBytes > |buf| {
        return;
      }
      c := RunC(RunsAt(buf, pos + 2, nRuns));
    } else {
      readBytes := readBytes + thiscard * 2;
      if readBytes > |buf| {
        return;
      }
      c := ArrayC(ValsAt(buf, pos, thiscard));
    }
    ok := true;
  }

  /** Reads the keys into the buffer made for them. */
  method DeserializeKeys(buf: seq<byte>, size: nat, keyscards: nat, keys: array<u16>, ghost h: Header)
    requires Fits(h, buf) && h.size == size && h.keysAt == keyscards && keys.Length == size
    modifies keys
    ensures keys[..] == KeysOf(buf, h)
  {
    hide U16Of;
    var k := 0;
    while k < size
      invariant k <= size && forall i :: 0 <= i < k ==> keys[i] == KeysOf(buf, h)[i]
    {
      keys[k] := U16At(buf, keyscards + 4 * k);
      k := k + 1;
    }
  }

  /** Reads the containers one by one; a failure gives up all that was read. */
  method DeserializeBodies(buf: seq<byte>, size: nat, hasrun: bool, flagsAt: nat, keyscards: nat, start: nat,
                           answer: RoaringArray, ghost h: Header)
    returns (ok: bool, readBytes: nat)
    requires h == Header(size, hasrun, flagsAt, keyscards, start) && Fits(h, buf)
    requires answer.Fits() && answer.keys.Length == size && answer.size == 0
    modifies answer`size, answer.containers
    ensures answer.Fits() && (ok <==> ReadBodies(buf, h, size).Progress?)
    ensures !ok ==> answer.size == 0
    ensures ok ==> answer.size == size && ReadBodies(buf, h, size) == Progress(answer.Slots(), readBytes)
  {
    hide U16Of, ReadContainer, Flagged, ReadBodies;
    ReadNothing(buf, h);
    readBytes := start;
    ok := true;
    var k := 0;
    while k < size
      invariant ok && k == answer.size <= size && answer.Fits()
      invariant ReadBodies(buf, h, k) == Progress(answer.Slots(), readBytes)
    {
      var isrun := hasrun && Flagged(buf[flagsAt..keyscards], k);
      var card := U16At(buf, keyscards + 4 * k + 2) + 1;
      var c;
      assert card == CardAt(buf, h, k) && isrun == RunAt(buf, h, k);
      ok, c, readBytes := DeserializeContainer(buf, readBytes, card, isrun);
      if !ok {
        ReadNext(buf, h, k);
        FailedStays(buf, h, k + 1, size);
        answer.size := 0;
        return;
      }
      ghost var cs := answer.Slots();
      ReadNext(buf, h, k);
      answer.containers[k] := c;
      answer.size := answer.size + 1;
      assert answer.Slots() == cs + [c];
      k := k + 1;
    }
  }

  /** `ra_portable_deserialize` on a buffer of `maxbytes` bytes. */
  method Deserialize(buf: seq<byte>) returns (ok: bool, answer: RoaringArray, readBytes: nat)
    ensures fresh(answer) && answer.Fits() && fresh(answer.keys) && fresh(answer.containers)
    ensures ok <==> Decode(buf).Parsed?
    ensures !ok ==> answer.size == 0
    ensures ok ==> Decode(buf) == Parsed(answer.Keys(), answer.Slots(), readBytes) && readBytes <= |buf|
    ensures ok ==> Reads(buf, answer.Keys(), answer.Slots(), readBytes)
    ensures forall keys, cs, len: nat :: Reads(buf, keys, cs, len) ==>
      ok && keys == answer.Keys() && cs == answer.Slots() && len == readBytes
  {
    hide ReadHeader, KeysOf, ReadBodies, Reads;
    forall keys, cs, len: nat ensures Reads(buf, keys, cs, len) <==> Decode(buf) == Parsed(keys, cs, len) {
      DecodeMeans(buf, keys, cs, len);
    }
    answer := new RoaringArray();
    var size, hasrun, flagsAt, keyscards;
    ok, size, hasrun, flagsAt, keyscards, readBytes := DeserializeHeader(buf);
    if !ok {
      return;
    }
    ghost var h := ReadHeader(buf);
    answer.Realloc(size);
    DeserializeKeys(buf, size, keyscards, answer.keys, h);
    ok, readBytes := DeserializeBodies(buf, size, hasrun, flagsAt, keyscards, readBytes, answer, h);
  }

  /** The header part of `ra_portable_deserialize_size`, which never notices that a size is negative. */
  method MeasureHeader(buf: seq<byte>)
    returns (ok: bool, size: int, hasrun: bool, flagsAt: nat, keyscards: nat, bytestotal: nat)
    requires |buf| < 0x8000_0000_0000_0000
    ensures !NegativeSize(buf) ==> (ok <==> ReadHeader(buf).Header?)
    ensures !NegativeSize(buf) && ok ==>
      size >= 0 && ReadHeader(buf) == Header(size, hasrun, flagsAt, keyscards, bytestotal)
    ensures NegativeSize(buf) && ok ==> size < 0
    ensures NegativeSize(buf) ==> MeasuredNegative(buf, if ok then bytestotal else 0)
  {
    hide U32Of, Times, Plus;
    ok, size, hasrun, flagsAt, keyscards := false, 0, false, 0, 0;
    bytestotal := 4;
    if bytestotal > |buf| {
      return;
    }
    var cookie := U32At(buf, 0);
    if cookie % 0x1_0000 != SERIAL_COOKIE && cookie != SERIAL_COOKIE_NO_RUNCONTAINER {
      return;
    }
    if cookie % 0x1_0000 == SERIAL_COOKIE {
      size := cookie / 0x1_0000 + 1;
    } else {
      bytestotal := bytestotal + 4;
      if bytestotal > |buf| {
        return;
      }
      size := Signed(U32At(buf, 4));
    }
    if size > MAX_CONTAINERS {
      return;
    }
    hasrun := cookie % 0x1_0000 == SERIAL_COOKIE;
    flagsAt := bytestotal;
    if hasrun {
      bytestotal := bytestotal + (size + 7) / 8;
      if bytestotal > |buf| {
        return;
      }
    }
    keyscards := bytestotal;
    if size >= 0 { SmallSums(bytestotal, size); } else { NegativeTotals(buf); }
    bytestotal := Plus(bytestotal, Times(size, 2) * 2);
    if bytestotal > |buf| {
      return;
    }
    if !hasrun || size >= NO_OFFSET_THRESHOLD {
      bytestotal := Plus(bytestotal, Times(size, 4));
      if bytestotal > |buf| {
        return;
      }
    }
    ok := true;
  }

  /** What the measuring reader makes of a negative size. */
  ghost predicate MeasuredNegative(b: seq<byte>, n: nat)
    requires NegativeSize(b)
  {
    n == if Misread(b) then WrappedTotal(U32At(b, 4) - 0x8000_0000) else 0
  }

  lemma NegativeTotals(b: seq<byte>)
    requires NegativeSize(b) && |b| < 0x8000_0000_0000_0000
    ensures var size := Signed(U32At(b, 4));
      var keys := Plus(8, Times(size, 2) * 2);
      MeasuredNegative(b, if keys > |b| || Plus(keys, Times(size, 4)) > |b| then 0 else Plus(keys, Times(size, 4)))
  {
    hide U32Of, Times, Plus, Signed;
    var x := U32At(b, 4);
    if x < 0xC000_0000 { WrappedSums(x, x - 0x8000_0000); } else { NegativeSums(x); }
  }

  /**
   `ra_portable_deserialize_size`: a second reader, which only measures. It agrees with the first one on a buffer, which
   no address space lets grow to 2^63 bytes, exactly unless a negative size wraps around to sections that fit.
   */
  method DeserializeSize(buf: seq<byte>) returns (bytestotal: nat)
    requires |buf| < 0x8000_0000_0000_0000
    ensures Decode(buf).Parsed? ==> bytestotal == Decode(buf).readBytes <= |buf|
    ensures forall keys, cs, len: nat :: Reads(buf, keys, cs, len) ==> bytestotal == len <= |buf|
    ensures Decode(buf).Malformed? && !Misread(buf) ==> bytestotal == 0
    ensures Misread(buf) <==>
      && |buf| >= 8 && Le32(buf, 0) == 12346 && 0x8000_0000 <= Le32(buf, 4) < 0xC000_0000
      && var m := Le32(buf, 4) - 0x8000_0000;
         8 + 4 * m <= |buf| && 8 + 8 * m <= |buf| + if m < 0x2000_0000 then 0 else 0x1_0000_0000
    ensures Misread(buf) ==>
      && Decode(buf).Malformed? && bytestotal > 0 && var m := Le32(buf, 4) - 0x8000_0000;
         bytestotal == 8 + 8 * m - if m < 0x2000_0000 then 0 else 0x1_0000_0000
  {
    hide U16Of, U32Of, ReadContainer, Flagged, ReadBodies, ReadHeader, KeysOf, Reads, Misread;
    MisreadMeans(buf);
    forall keys, cs, len: nat ensures Reads(buf, keys, cs, len) <==> Decode(buf) == Parsed(keys, cs, len) {
      DecodeMeans(buf, keys, cs, len);
    }
    var ok, size, hasrun, flagsAt, keyscards, start := MeasureHeader(buf);
    if NegativeSize(buf) { NegativeIsMalformed(buf); }
    if !ok {
      return 0;
    }
    ghost var h := ReadHeader(buf);
    if size >= 0 { ReadNothing(buf, h); }
    bytestotal := start;
    var k := 0;
    while k < size
      invariant size < 0 ==> k == 0 && bytestotal == start
      invariant size >= 0 ==> k <= size && ReadBodies(buf, h, k).Progress? && bytestotal == ReadBodies(buf, h, k).pos
    {
      ReadNext(buf, h, k);
      var isrun := hasrun && Flagged(buf[flagsAt..keyscards], k);
      var thiscard := U16At(buf, keyscards + 4 * k + 2) + 1;
      assert thiscard == CardAt(buf, h, k) && isrun == RunAt(buf, h, k);
      var total := PassContainer(buf, bytestotal, thiscard, isrun);
      if total > |buf| {
        FailedStays(buf, h, k + 1, size);
        return 0;
      }
      bytestotal := total;
      k := k + 1;
    }
  }

  /** The buffers that only the first reader rejects, by their numbers. */
  lemma MisreadMeans(b: seq<byte>)
    ensures Misread(b) <==>
      && |b| >= 8 && Le32(b, 0) == 12346 && 0x8000_0000 <= Le32(b, 4) < 0xC000_0000
      && var m := Le32(b, 4) - 0x8000_0000;
         8 + 4 * m <= |b| && 8 + 8 * m <= |b| + if m < 0x2000_0000 then 0 else 0x1_0000_0000
    ensures Misread(b) ==>
      && NegativeSize(b) && var m := Le32(b, 4) - 0x8000_0000;
         WrappedTotal(U32At(b, 4) - 0x8000_0000) == 8 + 8 * m - if m < 0x2000_0000 then 0 else 0x1_0000_0000
  {
    hide U32At, Le32;
    if |b| >= 8 {
      LongIs(b, 0);
      LongIs(b, 4);
    }
  }

  lemma NegativeIsMalformed(b: seq<byte>)
    requires NegativeSize(b)
    ensures Decode(b).Malformed?
  {
    hide U32Of;
  }

  /** The shortest buffer on which the two readers differ: the cookie, and the size -2^31. */
  lemma MisreadExample()
    ensures var b := U32Bytes(SERIAL_COOKIE_NO_RUNCONTAINER) + U32Bytes(0x8000_0000);
      |b| == 8 && Misread(b) && Decode(b).Malformed? && WrappedTotal(U32At(b, 4) - 0x8000_0000) == 8
  {
    hide U32Of, U32Bytes, Decode;
    var p, q := U32Bytes(SERIAL_COOKIE_NO_RUNCONTAINER), U32Bytes(0x8000_0000);
    assert |p| == |q| == 4 by { LongSize(SERIAL_COOKIE_NO_RUNCONTAINER); LongSize(0x8000_0000); }
    LongPieceAt(p + q, 0, SERIAL_COOKIE_NO_RUNCONTAINER);
    LongPieceAt(p + q, 4, 0x8000_0000);
    NegativeIsMalformed(p + q);
  }

  /** The body of the loop of `ra_portable_deserialize_size`: beyond the buffer when the container does not fit. */
  method PassContainer(buf: seq<byte>, start: nat, thiscard: nat, isrun: bool) returns (bytestotal: nat)
    requires start <= |buf|
    ensures var p := ReadContainer(buf, start, thiscard, isrun);
      if p.Piece? then bytestotal == p.pos else bytestotal > |buf|
  {
    hide U16Of, WordsAt, RunsAt, ValsAt;
    var isbitmap := thiscard > MAX_ARRAY && !isrun;
    if isbitmap {
      bytestotal := start + BITSET_WORDS * 8;
    } else if isrun {
      bytestotal := start + 2;
      if bytestotal <= |buf| {
        bytestotal := bytestotal + U16At(buf, start) * 4;
      }
    } else {
      bytestotal := start + thiscard * 2;
    }
  }

  // ---------- what any buffer says, number by number ----------

  lemma ShortIs(b: seq<byte>, pos: nat)
    requires pos + 2 <= |b|
    ensures U16At(b, pos) == Le16(b, pos)
  {
    hide U16Of;
    U16Is(b[pos..pos + 2]);
  }

  lemma LongIs(b: seq<byte>, pos: nat)
    requires pos + 4 <= |b|
    ensures U32At(b, pos) == Le32(b, pos)
  {
    hide U32Of;
    U32Is(b[pos..pos + 4]);
  }

  lemma SectionsMean(b: seq<byte>, size: nat, hasrun: bool, flagsAt: nat)
    requires flagsAt == if hasrun then 4 else 8
    ensures Sections(b, size, hasrun, flagsAt) ==
      if size <= 65536 && BodiesAt(hasrun, size) <= |b|
      then Header(size, hasrun, flagsAt, KeysAt(hasrun, size), BodiesAt(hasrun, size)) else BadHeader
  {
  }

  lemma RunHeader(b: seq<byte>)
    requires |b| >= 4 && Le16(b, 0) == 12347
    ensures ReadHeader(b) == Sections(b, Le16(b, 2) + 1, true, 4)
  {
    hide U32At, Le16, Sections;
    LongIs(b, 0);
    Halves16(Le32(b, 0), Le16(b, 0), Le16(b, 2));
  }

  lemma PlainHeader(b: seq<byte>)
    requires |b| >= 4 && Le16(b, 0) != 12347
    ensures ReadHeader(b) ==
      if |b| >= 8 && Le32(b, 0) == 12346 then Sections(b, Le32(b, 4), false, 8) else BadHeader
  {
    hide U32At, Le16, Sections;
    LongIs(b, 0);
    Halves16(Le32(b, 0), Le16(b, 0), Le16(b, 2));
    if |b| >= 8 { LongIs(b, 4); }
  }

  /** The header that is read, in terms of the format; of a size whose sections do not fit, there is none. */
  lemma HeaderMeans(b: seq<byte>, n: nat)
    ensures var hasrun, h := RunCookie(b), ReadHeader(b);
      n <= 65536 && BodiesAt(hasrun, n) <= |b| && CookieAt(b, hasrun, n) <==>
        h == Header(n, hasrun, if hasrun then 4 else 8, KeysAt(hasrun, n), BodiesAt(hasrun, n))
    ensures var h := ReadHeader(b); h.Header? ==>
      h == Header(h.size, h.hasrun, if h.hasrun then 4 else 8, KeysAt(h.hasrun, h.size), BodiesAt(h.hasrun, h.size))
    ensures ReadHeader(b).Header? ==> (ReadHeader(b).hasrun <==> RunCookie(b))
  {
    hide Le16, Le32, Sections, ReadHeader, KeysAt, BodiesAt;
    if |b| < 4 {
      TooShortFor(b, n);
    } else if Le16(b, 0) == 12347 {
      RunHeader(b);
      SectionsMean(b, Le16(b, 2) + 1, true, 4);
    } else {
      PlainHeader(b);
      TooShortFor(b, n);
      if |b| >= 8 { SectionsMean(b, Le32(b, 4), false, 8); }
    }
  }

  lemma TooShortFor(b: seq<byte>, n: nat)
    ensures BodiesAt(false, n) >= 8 && (|b| < 4 ==> ReadHeader(b).BadHeader?)
  {
  }

  /** The words of a bitset are known by their bits, and those by the digits of the buffer. */
  lemma WordsMean(b: seq<byte>, pos: nat, words: seq<bv64>)
    requires pos + 8192 <= |b| && |words| == 1024
    ensures words == WordsAt(b, pos, 1024) <==>
      forall x :: 0 <= x < 65536 ==> (x in BitSet(words) <==> DigitAt(b, pos, x))
  {
    hide DigitAt, Bit, WordOf;
    var read := WordsAt(b, pos, 1024);
    forall x | 0 <= x < 65536 ensures x in BitSet(read) <==> DigitAt(b, pos, x) { ReadDigit(b, pos, x); }
    if forall x :: 0 <= x < 65536 ==> (x in BitSet(words) <==> DigitAt(b, pos, x)) {
      forall j | 0 <= j < 1024 ensures words[j] == read[j] {
        forall i | 0 <= i < 64 ensures Bit(words[j], i) <==> Bit(read[j], i) {
          MemberAt(words, j, i);
          MemberAt(read, j, i);
          assert 64 * j + i in BitSet(words) <==> 64 * j + i in BitSet(read);
        }
        SameBits(words[j], read[j]);
      }
    }
  }

  lemma ReadDigit(b: seq<byte>, pos: nat, x: nat)
    requires pos + 8192 <= |b| && x < 65536
    ensures x in BitSet(WordsAt(b, pos, 1024)) <==> DigitAt(b, pos, x)
  {
    hide Bit, WordOf;
    var at, i := pos + x / 64 * 8, x % 64;
    WordDigit(b[at..at + 8], i / 8, i % 8);
    DigitFurther(b, pos, x);
  }

  /** A container is read exactly when it stands there and is of the kind that flag and cardinality say. */
  lemma ContainerMeans(b: seq<byte>, pos: nat, card: nat, isrun: bool, c: Container, end: nat)
    requires card > 0
    ensures ReadContainer(b, pos, card, isrun) == Piece(c, end) <==>
      && (c.RunC? <==> isrun)
      && (c.ArrayC? ==> |c.vals| == card <= 4096) && (c.BitsetC? ==> c.cardinality == card > 4096)
      && ContainerAt(b, pos, c)
      && end == pos + match c case ArrayC(vals) => 2 * |vals|
                              case BitsetC(_, _) => 8192
                              case RunC(runs) => 2 + 4 * |runs|
  {
    hide U16At, Le16, DigitAt, WordsAt, BitSet;
    match c {
      case ArrayC(vals) =>
        if pos + 2 * card <= |b| && |vals| == card {
          forall i | 0 <= i < card ensures ValsAt(b, pos, card)[i] == Le16(b, pos + 2 * i) { ShortIs(b, pos + 2 * i); }
        }
      case BitsetC(words, _) =>
        if pos + 8192 <= |b| && |words| == 1024 { WordsMean(b, pos, words); }
      case RunC(runs) =>
        if pos + 2 <= |b| {
          ShortIs(b, pos);
          var n: nat := U16At(b, pos);
          if pos + 2 + 4 * n <= |b| && |runs| == n { RunsMean(b, pos + 2, runs); }
        }
    }
  }

  lemma RunsMean(b: seq<byte>, pos: nat, runs: seq<Run>)
    requires pos + 4 * |runs| <= |b|
    ensures runs == RunsAt(b, pos, |runs|) <==> forall i :: 0 <= i < |runs| ==>
      runs[i].value == Le16(b, pos + 4 * i) && runs[i].length == Le16(b, pos + 2 + 4 * i)
  {
    hide U16At, Le16;
    forall i | 0 <= i < |runs|
      ensures RunsAt(b, pos, |runs|)[i] == Run(Le16(b, pos + 4 * i), Le16(b, pos + 2 + 4 * i))
    {
      ShortIs(b, pos + 4 * i);
      ShortIs(b, pos + 4 * i + 2);
    }
  }

  /** Slot `k` of a buffer with header `h`, but for its key. */
  ghost predicate BodyRead(b: seq<byte>, h: Header, cs: seq<Container>, k: nat, p: nat)
    requires Fits(h, b) && k < h.size == |cs|
  {
    && (cs[k].RunC? <==> RunAt(b, h, k))
    && (cs[k].ArrayC? ==> |cs[k].vals| == CardAt(b, h, k) <= 4096)
    && (cs[k].BitsetC? ==> cs[k].cardinality == CardAt(b, h, k) > 4096)
    && ContainerAt(b, p, cs[k])
  }

  lemma {:induction false} BodiesStand(b: seq<byte>, h: Header, cs: seq<Container>, k: nat)
    requires Fits(h, b) && k <= h.size == |cs|
    requires ReadBodies(b, h, k).Progress? && ReadBodies(b, h, k).cs == cs[..k]
    ensures ReadBodies(b, h, k).pos == Starts(h.bodiesAt, cs)[k]
    ensures forall i :: 0 <= i < k ==> BodyRead(b, h, cs, i, Starts(h.bodiesAt, cs)[i])
    decreases k
  {
    hide ReadContainer, CardAt, RunAt, ContainerAt, Starts;
    if k > 0 {
      ReadNext(b, h, k - 1);
      LastOf(ReadBodies(b, h, k - 1).cs, ReadBodies(b, h, k).cs[k - 1], cs, k);
      BodiesStand(b, h, cs, k - 1);
      CardPositive(b, h, k - 1);
      ContainerMeans(b, Starts(h.bodiesAt, cs)[k - 1], CardAt(b, h, k - 1), RunAt(b, h, k - 1), cs[k - 1],
                     ReadBodies(b, h, k).pos);
    }
  }

  lemma LastOf(front: seq<Container>, last: Container, cs: seq<Container>, k: nat)
    requires 0 < k <= |cs| && |front| == k - 1 && front + [last] == cs[..k]
    ensures front == cs[..k - 1] && last == cs[k - 1]
  {
    assert (front + [last])[..k - 1] == front && cs[..k][..k - 1] == cs[..k - 1] && cs[..k][k - 1] == cs[k - 1];
  }

  lemma {:induction false} BodiesAreRead(b: seq<byte>, h: Header, cs: seq<Container>, k: nat)
    requires Fits(h, b) && k <= h.size == |cs|
    requires forall i :: 0 <= i < k ==> BodyRead(b, h, cs, i, Starts(h.bodiesAt, cs)[i])
    ensures ReadBodies(b, h, k) == Progress(cs[..k], Starts(h.bodiesAt, cs)[k])
    decreases k
  {
    hide ReadContainer, CardAt, RunAt, ContainerAt, Starts, ReadBodies;
    if k == 0 {
      ReadNothing(b, h);
    } else {
      BodiesAreRead(b, h, cs, k - 1);
      ReadNext(b, h, k - 1);
      assert BodyRead(b, h, cs, k - 1, Starts(h.bodiesAt, cs)[k - 1]);
      CardPositive(b, h, k - 1);
      ContainerMeans(b, Starts(h.bodiesAt, cs)[k - 1], CardAt(b, h, k - 1), RunAt(b, h, k - 1), cs[k - 1],
                     Starts(h.bodiesAt, cs)[k]);
      assert cs[..k] == cs[..k - 1] + [cs[k - 1]];
    }
  }

  lemma CardPositive(b: seq<byte>, h: Header, k: nat)
    requires Fits(h, b) && k < h.size
    ensures CardAt(b, h, k) > 0
  {
  }

  /** A slot in terms of the header is a slot in terms of the format. */
  lemma SlotMeans(b: seq<byte>, h: Header, keys: seq<u16>, cs: seq<Container>, k: nat, p: nat)
    requires h.Header?
    requires h == Header(|cs|, h.hasrun, if h.hasrun then 4 else 8, KeysAt(h.hasrun, |cs|), BodiesAt(h.hasrun, |cs|))
    requires |keys| == |cs| && k < |cs| && Fits(h, b)
    ensures SlotRead(b, h.hasrun, keys, cs, k, p) <==> KeysOf(b, h)[k] == keys[k] && BodyRead(b, h, cs, k, p)
  {
    hide U16At, ContainerAt, Le16, DigitAt, Tests;
    ShortIs(b, h.keysAt + 4 * k);
    ShortIs(b, h.keysAt + 4 * k + 2);
    if h.hasrun { FlagMeans(b, h, k); }
  }

  lemma FlagMeans(b: seq<byte>, h: Header, k: nat)
    requires Fits(h, b) && h.hasrun && h.flagsAt == 4 && k < h.size
    ensures RunAt(b, h, k) <==> DigitAt(b, 4, k)
  {
    hide Tests;
    TestIsDigit(b[4 + k / 8], k % 8);
  }

  /** The reader gives slots back exactly when the buffer says so in the terms of the format, whatever the buffer. */
  lemma DecodeMeans(b: seq<byte>, keys: seq<u16>, cs: seq<Container>, len: nat)
    ensures Decode(b) == Parsed(keys, cs, len) <==> Reads(b, keys, cs, len)
  {
    if Decode(b) == Parsed(keys, cs, len) { DecodedReads(b, keys, cs, len); }
    if Reads(b, keys, cs, len) { ReadsDecoded(b, keys, cs, len); }
  }

  lemma DecodedReads(b: seq<byte>, keys: seq<u16>, cs: seq<Container>, len: nat)
    requires Decode(b) == Parsed(keys, cs, len)
    ensures Reads(b, keys, cs, len)
  {
    hide ReadHeader, ReadBodies, KeysAt, BodiesAt, SlotRead, BodyRead, CookieAt, KeysOf, Starts, Le16;
    var h := ReadHeader(b);
    HeaderMeans(b, h.size);
    assert cs[..h.size] == cs;
    BodiesStand(b, h, cs, h.size);
    forall k | 0 <= k < |cs| ensures SlotRead(b, h.hasrun, keys, cs, k, Starts(h.bodiesAt, cs)[k]) {
      SlotMeans(b, h, keys, cs, k, Starts(h.bodiesAt, cs)[k]);
    }
  }

  lemma ReadsDecoded(b: seq<byte>, keys: seq<u16>, cs: seq<Container>, len: nat)
    requires Reads(b, keys, cs, len)
    ensures Decode(b) == Parsed(keys, cs, len)
  {
    hide ReadHeader, ReadBodies, KeysAt, BodiesAt, SlotRead, BodyRead, CookieAt, KeysOf, Starts, Le16;
    HeaderMeans(b, |cs|);
    var h := ReadHeader(b);
    forall k | 0 <= k < |cs|
      ensures KeysOf(b, h)[k] == keys[k] && BodyRead(b, h, cs, k, Starts(h.bodiesAt, cs)[k])
    {
      SlotMeans(b, h, keys, cs, k, Starts(h.bodiesAt, cs)[k]);
    }
    BodiesAreRead(b, h, cs, |cs|);
    assert KeysOf(b, h) == keys && cs[..|cs|] == cs;
  }

  // ---------- reading what was written ----------

  lemma PieceAt(b: seq<byte>, pos: nat, x: u16)
    requires Stands(b, pos, U16Bytes(x))
    ensures U16At(b, pos) == x
  {
    hide U16Bytes, U16Of;
    U16Back(x);
  }

  lemma LongPieceAt(b: seq<byte>, pos: nat, x: u32)
    requires Stands(b, pos, U32Bytes(x))
    ensures U32At(b, pos) == x
  {
    hide U32Bytes, U32Of;
    U32Back(x);
  }

  lemma ValsBack(b: seq<byte>, pos: nat, vals: seq<u16>)
    requires Stands(b, pos, Concat(ValParts(vals)))
    ensures pos + 2 * |vals| <= |b| && ValsAt(b, pos, |vals|) == vals
  {
    hide U16Bytes, U16At, Concat, Uniform;
    UniformSize(ValParts(vals), 2);
    assert pos + 2 * |vals| <= |b|;
    forall i | 0 <= i < |vals| ensures ValsAt(b, pos, |vals|)[i] == vals[i] {
      StandsUniform(b, pos, ValParts(vals), 2, i);
      PieceAt(b, pos + i * 2, vals[i]);
    }
  }

  lemma WordsBack(b: seq<byte>, pos: nat, words: seq<bv64>)
    requires Stands(b, pos, Concat(WordParts(words)))
    ensures pos + 8 * |words| <= |b| && WordsAt(b, pos, |words|) == words
  {
    hide WordBytes, WordOf, Concat, Uniform;
    UniformSize(WordParts(words), 8);
    assert pos + 8 * |words| <= |b|;
    forall i | 0 <= i < |words| ensures WordsAt(b, pos, |words|)[i] == words[i] {
      StandsUniform(b, pos, WordParts(words), 8, i);
      WordBack(words[i]);
    }
  }

  lemma RunsBack(b: seq<byte>, pos: nat, runs: seq<Run>)
    requires Stands(b, pos, Concat(RunParts(runs)))
    ensures pos + 4 * |runs| <= |b| && RunsAt(b, pos, |runs|) == runs
  {
    hide U16Bytes, U16At, Concat, Uniform, Stands;
    UniformSize(RunParts(runs), 4);
    StandsInside(b, pos, Concat(RunParts(runs)));
    forall i | 0 <= i < |runs| ensures RunsAt(b, pos, |runs|)[i] == runs[i] {
      StandsUniform(b, pos, RunParts(runs), 4, i);
      StandsSplit(b, pos + i * 4, U16Bytes(runs[i].value), U16Bytes(runs[i].length));
      PieceAt(b, pos + i * 4, runs[i].value);
      PieceAt(b, pos + i * 4 + 2, runs[i].length);
    }
  }

  /** A bitset with at most 4096 values is the one container that the format does not distinguish. */
  predicate Portable(c: Container) {
    c.BitsetC? ==> c.cardinality > MAX_ARRAY
  }

  lemma BodyBack(b: seq<byte>, pos: nat, c: Container)
    requires Stands(b, pos, Body(c)) && Good(c) && Portable(c)
    ensures ReadContainer(b, pos, |Elems(c)|, c.RunC?) == Piece(c, pos + |Body(c)|)
  {
    hide Elems, Body, ReadContainer, Stands, Good;
    CardFits(c);
    match c {
      case ArrayC(vals) => ArrayBack(b, pos, vals);
      case BitsetC(words, card) => BitsetBack(b, pos, words, card);
      case RunC(runs) => RunListBack(b, pos, runs, |Elems(c)|);
    }
  }

  lemma ArrayBack(b: seq<byte>, pos: nat, vals: seq<u16>)
    requires Stands(b, pos, Body(ArrayC(vals))) && |vals| <= MAX_ARRAY
    ensures ReadContainer(b, pos, |vals|, false) == Piece(ArrayC(vals), pos + |Body(ArrayC(vals))|)
  {
    hide Concat, Uniform, Stands, U16At, ValsAt, ValParts;
    BodySize(ArrayC(vals));
    ValsBack(b, pos, vals);
  }

  lemma BitsetBack(b: seq<byte>, pos: nat, words: seq<bv64>, card: int)
    requires Stands(b, pos, Body(BitsetC(words, card))) && |words| == BITSET_WORDS && MAX_ARRAY < card
    ensures ReadContainer(b, pos, card, false) == Piece(BitsetC(words, card), pos + |Body(BitsetC(words, card))|)
  {
    hide Concat, Uniform, Stands, U16At, WordsAt, WordParts;
    BodySize(BitsetC(words, card));
    WordsBack(b, pos, words);
  }

  lemma RunListBack(b: seq<byte>, pos: nat, runs: seq<Run>, card: nat)
    requires Stands(b, pos, Body(RunC(runs))) && |runs| < 0x1_0000
    ensures ReadContainer(b, pos, card, true) == Piece(RunC(runs), pos + |Body(RunC(runs))|)
  {
    hide Concat, Uniform, Stands, U16At, RunsAt, RunParts;
    BodySize(RunC(runs));
    StandsSplit(b, pos, U16Bytes(|runs| % 0x1_0000), Concat(RunParts(runs)));
    PieceAt(b, pos, |runs| % 0x1_0000);
    RunsBack(b, pos + 2, runs);
    StandsInside(b, pos, U16Bytes(|runs| % 0x1_0000));
  }

  // ---------- the round trip ----------

  lemma HeaderBack(b: seq<byte>, keys: seq<u16>, cs: seq<Container>)
    requires |keys| == |cs| <= MAX_CONTAINERS && Stands(b, 0, Encode(keys, cs))
    ensures var hasrun := HasRun(cs);
      ReadHeader(b) == Header(|cs|, hasrun, if hasrun then 4 else 8, |Preamble(cs)|, HeaderSize(hasrun, |cs|))
    ensures HasRun(cs) ==> Stands(b, 4, Flags(cs, (|cs| + 7) / 8))
  {
    hide Encode, Stands, U32At, U32Bytes, Flags, Concat, Descriptors, OffsetTable, Bodies, HasRun;
    PartsStand(b, keys, cs);
    StandsInside(b, 0, Preamble(cs));
    HasOne(cs);
    if HasRun(cs) {
      var cookie := SERIAL_COOKIE + 0x1_0000 * (|cs| - 1);
      StandsSplit(b, 0, U32Bytes(cookie), Flags(cs, (|cs| + 7) / 8));
      LongPieceAt(b, 0, cookie);
    } else {
      StandsSplit(b, 0, U32Bytes(SERIAL_COOKIE_NO_RUNCONTAINER), U32Bytes(|cs|));
      LongPieceAt(b, 0, SERIAL_COOKIE_NO_RUNCONTAINER);
      LongPieceAt(b, 4, |cs|);
    }
  }

  /** The descriptor and the run flag of slot `k`. */
  lemma DescriptorBack(b: seq<byte>, keys: seq<u16>, cs: seq<Container>, k: nat)
    requires |keys| == |cs| <= MAX_CONTAINERS && Stands(b, 0, Encode(keys, cs)) && k < |cs| && Good(cs[k])
    ensures var h := ReadHeader(b);
      Fits(h, b) && h.size == |cs| && KeysOf(b, h)[k] == keys[k] && CardAt(b, h, k) == |Elems(cs[k])|
      && (RunAt(b, h, k) <==> cs[k].RunC?)
  {
    hide Encode, Stands, U16At, U16Bytes, Flags, Flagged, Concat, OffsetTable, Bodies, HasRun, ReadHeader, Good,
      Elems, Preamble, Uniform;
    var h, card := ReadHeader(b), |Elems(cs[k])|;
    PartsStand(b, keys, cs);
    HeaderBack(b, keys, cs);
    CardFits(cs[k]);
    var at := h.keysAt + 4 * k;
    StandsUniform(b, h.keysAt, Descriptors(keys, cs), 4, k);
    StandsSplit(b, at, U16Bytes(keys[k]), U16Bytes((card - 1) % 0x1_0000));
    PieceAt(b, at, keys[k]);
    PieceAt(b, at + 2, card - 1);
    NotAmong(cs, k);
    if HasRun(cs) {
      FlagsTest(cs, (|cs| + 7) / 8, k);
      SliceIs(b, h.flagsAt, Flags(cs, (|cs| + 7) / 8));
    }
  }

  /** Slot `k` reads back, where the reader has come to. */
  lemma SlotBack(b: seq<byte>, keys: seq<u16>, cs: seq<Container>, k: nat)
    requires |keys| == |cs| <= MAX_CONTAINERS && Stands(b, 0, Encode(keys, cs))
    requires k < |cs| && Good(cs[k]) && Portable(cs[k])
    ensures var h, pos := ReadHeader(b), HeaderSize(HasRun(cs), |cs|) + |Concat(Bodies(cs)[..k])|;
      Fits(h, b) && h.size == |cs| && h.bodiesAt == HeaderSize(HasRun(cs), |cs|) &&
      ReadContainer(b, pos, CardAt(b, h, k), RunAt(b, h, k)) == Piece(cs[k], pos + |Body(cs[k])|)
  {
    hide Encode, Stands, Concat, HasRun, ReadHeader, Good, Preamble, ReadContainer, CardAt, RunAt, Body, HeaderSize,
      Portable, Elems;
    HeaderBack(b, keys, cs);
    DescriptorBack(b, keys, cs, k);
    PartsStand(b, keys, cs);
    var first := HeaderSize(HasRun(cs), |cs|);
    StandsPiece(b, first, Bodies(cs), k);
    BodyBack(b, first + |Concat(Bodies(cs)[..k])|, cs[k]);
  }

  lemma {:induction false} BodiesBack(b: seq<byte>, keys: seq<u16>, cs: seq<Container>, k: nat)
    requires |keys| == |cs| <= MAX_CONTAINERS && AllGood(cs) && Stands(b, 0, Encode(keys, cs)) && k <= |cs|
    requires forall i :: 0 <= i < k ==> Portable(cs[i])
    ensures var h := ReadHeader(b);
      Fits(h, b) && h.size == |cs| && ReadBodies(b, h, k) == Progress(cs[..k], h.bodiesAt + |Concat(Bodies(cs)[..k])|)
    decreases k
  {
    hide Encode, Stands, Concat, HasRun, ReadHeader, Good, Preamble, ReadBodies, ReadContainer, CardAt, RunAt, Body,
      Bodies, HeaderSize, Portable;
    var h := ReadHeader(b);
    HeaderBack(b, keys, cs);
    if k == 0 {
      ReadNothing(b, h);
      NoPieces(Bodies(cs));
    } else {
      BodiesBack(b, keys, cs, k - 1);
      SlotBack(b, keys, cs, k - 1);
      ConcatNext(Bodies(cs), k - 1);
      ReadNext(b, h, k - 1);
      BodyNext(cs, k - 1);
    }
  }

  /** A bitset of 4096 values takes as many bytes as the array that is read in its place. */
  predicate Measured(c: Container) {
    c.BitsetC? ==> c.cardinality >= 4096
  }

  lemma MeasureBack(b: seq<byte>, pos: nat, c: Container)
    requires Stands(b, pos, Body(c)) && Good(c) && Measured(c)
    ensures var p := ReadContainer(b, pos, |Elems(c)|, c.RunC?); p.Piece? && p.pos == pos + |Body(c)|
  {
    hide Elems, Body, ReadContainer, Stands, Good;
    if Portable(c) {
      BodyBack(b, pos, c);
    } else {
      CardFits(c);
      FullBitsetBack(b, pos, c.words, c.cardinality);
    }
  }

  lemma FullBitsetBack(b: seq<byte>, pos: nat, words: seq<bv64>, card: int)
    requires Stands(b, pos, Body(BitsetC(words, card))) && |words| == BITSET_WORDS && card == 4096
    ensures var p := ReadContainer(b, pos, card, false); p.Piece? && p.pos == pos + |Body(BitsetC(words, card))|
  {
    hide Concat, Uniform, U16At, ValsAt, WordParts;
    BodySize(BitsetC(words, card));
  }

  lemma {:induction false} SizesBack(b: seq<byte>, keys: seq<u16>, cs: seq<Container>, k: nat)
    requires |keys| == |cs| <= MAX_CONTAINERS && AllGood(cs) && Stands(b, 0, Encode(keys, cs)) && k <= |cs|
    requires forall i :: 0 <= i < k ==> Measured(cs[i])
    ensures var h := ReadHeader(b);
      Fits(h, b) && h.size == |cs| && ReadBodies(b, h, k).Progress? &&
      ReadBodies(b, h, k).pos == h.bodiesAt + |Concat(Bodies(cs)[..k])|
    decreases k
  {
    hide Encode, Stands, Concat, HasRun, ReadHeader, Good, Preamble, ReadBodies, ReadContainer, CardAt, RunAt, Body,
      Bodies, HeaderSize, Measured, Elems;
    var h := ReadHeader(b);
    HeaderBack(b, keys, cs);
    if k == 0 {
      ReadNothing(b, h);
      NoPieces(Bodies(cs));
    } else {
      SizesBack(b, keys, cs, k - 1);
      DescriptorBack(b, keys, cs, k - 1);
      PartsStand(b, keys, cs);
      StandsPiece(b, h.bodiesAt, Bodies(cs), k - 1);
      BodiesAre(cs, k - 1);
      MeasureBack(b, h.bodiesAt + |Concat(Bodies(cs)[..k - 1])|, cs[k - 1]);
      ConcatNext(Bodies(cs), k - 1);
      ReadNext(b, h, k - 1);
    }
  }

  lemma BodyNext(cs: seq<Container>, k: nat)
    requires k < |cs|
    ensures Bodies(cs)[k] == Body(cs[k]) && cs[..k + 1] == cs[..k] + [cs[k]]
  {
  }

  /** No reader makes a bitset of at most 4096 values. */
  lemma {:induction false} BitsetsAreLarge(b: seq<byte>, h: Header, k: nat, i: nat)
    requires Fits(h, b) && k <= h.size && ReadBodies(b, h, k).Progress? && i < k
    ensures Portable(ReadBodies(b, h, k).cs[i])
    decreases k
  {
    hide ReadContainer, CardAt, RunAt;
    if i < k - 1 { BitsetsAreLarge(b, h, k - 1, i); }
  }

  /**
   The round trip. Reading an image gives back the bitmap, and its length, exactly when every bitset holds more than
   4096 values. The mutators do not guarantee that: a range removal leaves bitsets with as few as 4096.
   */
  lemma RoundTrip(keys: seq<u16>, cs: seq<Container>, rest: seq<byte>)
    requires Layout(keys, cs) && |cs| <= MAX_CONTAINERS
    ensures |keys| == |cs|
    ensures Decode(Encode(keys, cs) + rest) == Parsed(keys, cs, PortableSize(cs))
      <==> forall i :: 0 <= i < |cs| ==> Portable(cs[i])
  {
    hide Encode, Stands, Concat, HasRun, ReadHeader, Good, Preamble, Layout, ReadBodies, KeysOf, Portable,
      PortableSize, CardAt, RunAt;
    Bitmaps.LayoutIs(keys, cs);
    LayoutShaped(keys, cs);
    var b := Encode(keys, cs) + rest;
    StandsFirst(Encode(keys, cs), rest);
    HeaderBack(b, keys, cs);
    var h := ReadHeader(b);
    if forall i :: 0 <= i < |cs| ==> Portable(cs[i]) {
      BodiesBack(b, keys, cs, |cs|);
      WholeLength(cs);
      forall k | 0 <= k < |cs| ensures KeysOf(b, h)[k] == keys[k] {
        Bitmaps.GoodAt(cs, k);
        DescriptorBack(b, keys, cs, k);
      }
      assert KeysOf(b, h) == keys;
    } else {
      var i :| 0 <= i < |cs| && !Portable(cs[i]);
      if ReadBodies(b, h, h.size).Progress? { BitsetsAreLarge(b, h, h.size, i); }
    }
  }

  /** An image of which every bitset has at least 4096 values is measured right, whatever stands behind it. */
  lemma MeasuredLength(keys: seq<u16>, cs: seq<Container>, rest: seq<byte>)
    requires Layout(keys, cs) && |cs| <= MAX_CONTAINERS && forall i :: 0 <= i < |cs| ==> Measured(cs[i])
    ensures |keys| == |cs|
    ensures var d := Decode(Encode(keys, cs) + rest); d.Parsed? && d.readBytes == PortableSize(cs) == |Encode(keys, cs)|
  {
    hide Encode, Stands, Concat, HasRun, ReadHeader, Good, Preamble, Layout, ReadBodies, KeysOf, Measured,
      PortableSize, CardAt, RunAt;
    Bitmaps.LayoutIs(keys, cs);
    LayoutShaped(keys, cs);
    EncodeSize(keys, cs);
    var b := Encode(keys, cs) + rest;
    StandsFirst(Encode(keys, cs), rest);
    HeaderBack(b, keys, cs);
    SizesBack(b, keys, cs, |cs|);
    WholeLength(cs);
  }

  /** Measuring what was written, followed by any bytes, gives the length that the writer gave. */
  method MeasureWritten(ra: RoaringArray, buf: array<byte>, rest: seq<byte>) returns (n: nat, bytestotal: nat)
    requires ra.Valid() && Apart(ra, buf) && PortableSize(ra.Slots()) <= buf.Length
    requires PortableSize(ra.Slots()) + |rest| < 0x8000_0000_0000_0000
    requires forall i :: 0 <= i < ra.size && ra.containers[i].BitsetC? ==> ra.containers[i].cardinality >= 4096
    modifies buf
    ensures ra.Keys() == old(ra.Keys()) && ra.Slots() == old(ra.Slots())
    ensures n <= buf.Length && IsImage(buf[..n], ra.Keys(), ra.Slots()) && bytestotal == n
  {
    hide Encode, Layout, PortableSize, IsImage, Decode, Misread, Reads;
    n := Serialize(ra, buf);
    MeasuredLength(ra.Keys(), ra.Slots(), rest);
    bytestotal := DeserializeSize(buf[..n] + rest);
  }

  lemma WholeLength(cs: seq<Container>)
    requires Shaped(cs)
    ensures cs[..|cs|] == cs && Bodies(cs)[..|cs|] == Bodies(cs)
    ensures HeaderSize(HasRun(cs), |cs|) + |Concat(Bodies(cs))| == PortableSize(cs)
  {
    hide Bodies, Concat, HasRun, HeaderSize, SumSizes;
    BodiesSize(cs);
  }

  /** No reader gives a bitset of at most 4096 values back. */
  lemma SmallBitsetFails(c: Container, rest: seq<byte>)
    requires Good(c) && c.BitsetC? && |Elems(c)| <= MAX_ARRAY
    ensures Layout([0], [c]) && Decode(Encode([0], [c]) + rest) != Parsed([0], [c], PortableSize([c]))
  {
    hide Encode, Decode, PortableSize, BitSet, Layout;
    Bitmaps.LayoutOne(0, c);
    RoundTrip([0], [c], rest);
    assert !Portable([c][0]);
  }

  /** Every range removal that leaves 4096 values of a bitset leaves them as a bitset, which does not read back. */
  method RemovalLeavesSmallBitset(c: Container, min: u16, max: u16) returns (c': Container)
    requires Good(c) && c.BitsetC? && min <= max && |Elems(c) - Range(min, max + 1)| == MAX_ARRAY
    ensures Good(c') && c'.BitsetC? && Elems(c') == Elems(c) - Range(min, max + 1)
    ensures forall rest :: Decode(Encode([0], [c']) + rest) != Parsed([0], [c'], PortableSize([c']))
  {
    hide Encode, Decode, PortableSize, BitSet, Elements, Denote;
    var l := ContainerUpdates.RemoveRange(c, min, max);
    c' := l.container;
    forall rest ensures Decode(Encode([0], [c']) + rest) != Parsed([0], [c'], PortableSize([c'])) {
      SmallBitsetFails(c', rest);
    }
  }

  /** From a full array: one value more makes it a bitset, and a removal of that value by a range leaves it one. */
  method ReachSmallBitset() returns (c: Container)
    ensures Good(c) && c.BitsetC? && Elems(c) == Range(0, MAX_ARRAY)
    ensures forall rest :: Decode(Encode([0], [c]) + rest) != Parsed([0], [c], PortableSize([c]))
  {
    hide Encode, Decode, PortableSize, BitSet, Elements, Denote, Sorted;
    c := ContainerUpdates.ArrayOfRange(0, MAX_ARRAY);
    RangeSize(0, MAX_ARRAY);
    SortedSize(c.vals);
    var inPlace;
    c, inPlace := ContainerUpdates.AddToArray(c.vals, MAX_ARRAY);
    OneMoreAndLess();
    c := RemovalLeavesSmallBitset(c, MAX_ARRAY, MAX_ARRAY);
  }

  lemma OneMoreAndLess()
    ensures Range(0, MAX_ARRAY) + {MAX_ARRAY as int} - Range(MAX_ARRAY, MAX_ARRAY + 1) == Range(0, MAX_ARRAY)
    ensures Range(0, MAX_ARRAY) + {MAX_ARRAY as int} != {} && |Range(0, MAX_ARRAY)| == MAX_ARRAY
  {
    RangeSize(0, MAX_ARRAY);
    assert MAX_ARRAY as int in Range(0, MAX_ARRAY) + {MAX_ARRAY as int};
  }

  /** Entry `k` of the offset table is where the body of container `k` starts, in 32 bits. */
  lemma OffsetsExact(keys: seq<u16>, cs: seq<Container>, k: nat)
    requires |keys| == |cs| <= MAX_CONTAINERS && Shaped(cs) && k < |cs| && HasOffsets(HasRun(cs), |cs|)
    ensures var b, start := Encode(keys, cs), HeaderSize(HasRun(cs), |cs|) + SumSizes(cs[..k]);
      var at := HeaderSize(HasRun(cs), |cs|) - 4 * |cs| + 4 * k;
      at + 4 <= |b| && U32At(b, at) == start % 0x1_0000_0000 && Stands(b, start, Body(cs[k]))
  {
    hide Encode, Stands, Concat, HasRun, Preamble, U32Bytes, U32At, SumSizes, Body, Uniform, HeaderSize;
    var b, first := Encode(keys, cs), HeaderSize(HasRun(cs), |cs|);
    StandsFirst(b, []);
    assert b + [] == b;
    PartsStand(b, keys, cs);
    var at := first - 4 * |cs|;
    StandsUniform(b, at, Offsets(first, cs), 4, k);
    LongPieceAt(b, at + 4 * k, Offset(first, cs, k));
    StandsInside(b, at + 4 * k, Offsets(first, cs)[k]);
    StandsPiece(b, first, Bodies(cs), k);
    assert Bodies(cs)[..k] == Bodies(cs[..k]);
    BodiesSize(cs[..k]);
  }
}
