/** Byte buffers: the little-endian images of the integers that a bitmap stores, and where a piece of bytes stands. */
module Bytes {
  import opened IntSets

  type byte = bv8

  function Flag(p: bool, mask: byte): byte { if p then mask else 0 }

  function Weight(b: byte, mask: byte, w: int): int { if b & mask != 0 then w else 0 }

  function Digit(x: int, w: int): bool
    requires w > 0
  {
    x / w % 2 == 1
  }

  /** The byte with the eight binary digits of `x`. */
  function ToByte(x: int): byte
    requires 0 <= x < 256
  {
    Flag(Digit(x, 128), 128) | Flag(Digit(x, 64), 64) | Flag(Digit(x, 32), 32) | Flag(Digit(x, 16), 16)
    | Flag(Digit(x, 8), 8) | Flag(Digit(x, 4), 4) | Flag(Digit(x, 2), 2) | Flag(Digit(x, 1), 1)
  }

  function FromByte(b: byte): (x: int)
    ensures 0 <= x < 256
  {
    Weight(b, 128, 128) + Weight(b, 64, 64) + Weight(b, 32, 32) + Weight(b, 16, 16)
    + Weight(b, 8, 8) + Weight(b, 4, 4) + Weight(b, 2, 2) + Weight(b, 1, 1)
  }

  lemma ByteBack(x: int)
    requires 0 <= x < 256
    ensures FromByte(ToByte(x)) == x
  {
    hide Digit;
    Masked(Digit(x, 128), Digit(x, 64), Digit(x, 32), Digit(x, 16), Digit(x, 8), Digit(x, 4), Digit(x, 2), Digit(x, 1));
    Digits(x);
  }

  lemma Masked(p7: bool, p6: bool, p5: bool, p4: bool, p3: bool, p2: bool, p1: bool, p0: bool)
    ensures var b := Flag(p7, 128) | Flag(p6, 64) | Flag(p5, 32) | Flag(p4, 16)
                     | Flag(p3, 8) | Flag(p2, 4) | Flag(p1, 2) | Flag(p0, 1);
      && (b & 128 != 0 <==> p7) && (b & 64 != 0 <==> p6) && (b & 32 != 0 <==> p5) && (b & 16 != 0 <==> p4)
      && (b & 8 != 0 <==> p3) && (b & 4 != 0 <==> p2) && (b & 2 != 0 <==> p1) && (b & 1 != 0 <==> p0)
  {
  }

  function Value(p: bool, w: int): int { if p then w else 0 }

  lemma Digits(x: int)
    requires 0 <= x < 256
    ensures x == Value(Digit(x, 128), 128) + Value(Digit(x, 64), 64) + Value(Digit(x, 32), 32) + Value(Digit(x, 16), 16)
               + Value(Digit(x, 8), 8) + Value(Digit(x, 4), 4) + Value(Digit(x, 2), 2) + Value(Digit(x, 1), 1)
  {
    hide Digit;
    LowDigits(x);
    HighDigits(x);
  }

  lemma LowDigits(x: int)
    requires 0 <= x < 256
    ensures x == 16 * (x / 16) + Value(Digit(x, 8), 8) + Value(Digit(x, 4), 4) + Value(Digit(x, 2), 2) +
      Value(Digit(x, 1), 1)
  {
    Halves(x, x / 2, x / 4, x / 8, x / 16);
  }

  lemma HighDigits(x: int)
    requires 0 <= x < 256
    ensures 16 * (x / 16) == Value(Digit(x, 128), 128) + Value(Digit(x, 64), 64) + Value(Digit(x, 32), 32) +
      Value(Digit(x, 16), 16)
  {
    Halves(x / 16, x / 32, x / 64, x / 128, x / 256);
  }

  /** Four halvings, each of which leaves a digit. */
  lemma Halves(a: int, b: int, c: int, d: int, e: int)
    requires b == a / 2 && c == b / 2 && d == c / 2 && e == d / 2
    ensures a == 16 * e + Value(d % 2 == 1, 8) + Value(c % 2 == 1, 4) + Value(b % 2 == 1, 2) + Value(a % 2 == 1, 1)
  {
    assert a == 2 * b + a % 2 && b == 2 * c + b % 2 && c == 2 * d + c % 2 && d == 2 * e + d % 2;
  }

  function U16Bytes(x: u16): (b: seq<byte>)
    ensures |b| == 2
  {
    [ToByte(x % 256), ToByte(x / 256)]
  }

  function U32Bytes(x: u32): (b: seq<byte>)
    ensures |b| == 4
  {
    U16Bytes(x % 0x1_0000) + U16Bytes(x / 0x1_0000)
  }

  function WordBytes(w: bv64): (b: seq<byte>)
    ensures |b| == 8
  {
    [(w & 0xFF) as bv8, ((w >> 8) & 0xFF) as bv8, ((w >> 16) & 0xFF) as bv8, ((w >> 24) & 0xFF) as bv8,
     ((w >> 32) & 0xFF) as bv8, ((w >> 40) & 0xFF) as bv8, ((w >> 48) & 0xFF) as bv8, ((w >> 56) & 0xFF) as bv8]
  }

  function U16Of(b: seq<byte>): (x: u16)
    requires |b| == 2
  {
    FromByte(b[0]) + 256 * FromByte(b[1])
  }

  function U32Of(b: seq<byte>): (x: u32)
    requires |b| == 4
  {
    U16Of(b[..2]) + 0x1_0000 * U16Of(b[2..])
  }

  function WordOf(b: seq<byte>): bv64
    requires |b| == 8
  {
    (b[0] as bv64) | ((b[1] as bv64) << 8) | ((b[2] as bv64) << 16) | ((b[3] as bv64) << 24)
    | ((b[4] as bv64) << 32) | ((b[5] as bv64) << 40) | ((b[6] as bv64) << 48) | ((b[7] as bv64) << 56)
  }

  lemma U16Back(x: u16)
    ensures U16Of(U16Bytes(x)) == x
  {
    hide ToByte, FromByte;
    ByteBack(x % 256);
    ByteBack(x / 256);
  }

  lemma U32Back(x: u32)
    ensures U32Of(U32Bytes(x)) == x
  {
    hide U16Of, U16Bytes;
    U16Back(x % 0x1_0000);
    U16Back(x / 0x1_0000);
    var b := U32Bytes(x);
    assert b[..2] == U16Bytes(x % 0x1_0000) && b[2..] == U16Bytes(x / 0x1_0000);
  }

  lemma WordBack(w: bv64)
    ensures WordOf(WordBytes(w)) == w
  {
  }

  // ---------- lists of pieces ----------

  /** The pieces one after the other. */
  function Concat(parts: seq<seq<byte>>): seq<byte> {
    if parts == [] then [] else Concat(parts[..|parts| - 1]) + parts[|parts| - 1]
  }

  lemma ConcatNext(parts: seq<seq<byte>>, k: nat)
    requires k < |parts|
    ensures Concat(parts[..k + 1]) == Concat(parts[..k]) + parts[k]
    ensures |Concat(parts[..k + 1])| == |Concat(parts[..k])| + |parts[k]|
  {
    assert parts[..k + 1][..k] == parts[..k];
  }

  ghost predicate Uniform(parts: seq<seq<byte>>, w: nat) {
    forall i :: 0 <= i < |parts| ==> |parts[i]| == w
  }

  lemma {:induction false} UniformSize(parts: seq<seq<byte>>, w: nat)
    requires Uniform(parts, w)
    ensures |Concat(parts)| == |parts| * w
  {
    if parts != [] {
      var n := |parts| - 1;
      UniformSize(parts[..n], w);
      assert |parts| * w == n * w + w;
    }
  }

  /** `piece` stands in `b` at `pos`. */
  predicate Stands(b: seq<byte>, pos: nat, piece: seq<byte>) {
    pos + |piece| <= |b| && b[pos..pos + |piece|] == piece
  }

  lemma StandsSplit(b: seq<byte>, pos: nat, p: seq<byte>, q: seq<byte>)
    requires Stands(b, pos, p + q)
    ensures Stands(b, pos, p) && Stands(b, pos + |p|, q)
  {
    var r := b[pos..pos + |p| + |q|];
    assert r == p + q;
    assert r[..|p|] == p && r[|p|..] == q;
  }

  /** Every piece of a list stands behind the pieces before it. */
  lemma {:induction false} StandsPiece(b: seq<byte>, pos: nat, parts: seq<seq<byte>>, i: nat)
    requires Stands(b, pos, Concat(parts)) && i < |parts|
    ensures Stands(b, pos + |Concat(parts[..i])|, parts[i])
    decreases |parts|
  {
    hide Stands;
    var n := |parts| - 1;
    StandsSplit(b, pos, Concat(parts[..n]), parts[n]);
    if i < n {
      StandsPiece(b, pos, parts[..n], i);
      assert parts[..n][..i] == parts[..i];
    }
  }

  lemma UniformPrefix(parts: seq<seq<byte>>, w: nat, i: nat)
    requires Uniform(parts, w) && i <= |parts|
    ensures |Concat(parts[..i])| == i * w
  {
    hide Concat;
    var front := parts[..i];
    UniformSize(front, w);
    assert |front| == i;
  }

  lemma StandsUniform(b: seq<byte>, pos: nat, parts: seq<seq<byte>>, w: nat, i: nat)
    requires Stands(b, pos, Concat(parts)) && Uniform(parts, w) && i < |parts|
    ensures 0 <= pos + i * w && Stands(b, pos + i * w, parts[i])
  {
    hide Stands, Concat, Uniform;
    StandsPiece(b, pos, parts, i);
    UniformPrefix(parts, w, i);
  }

  /** `memcpy` of a piece into a buffer. */
  method Put(buf: array<byte>, pos: nat, piece: seq<byte>) returns (pos': nat)
    requires pos + |piece| <= buf.Length
    modifies buf
    ensures pos' == pos + |piece| && buf[..pos'] == old(buf[..pos]) + piece
  {
    forall k | 0 <= k < |piece| {
      buf[pos + k] := piece[k];
    }
    pos' := pos + |piece|;
  }
}
