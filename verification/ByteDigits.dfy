/** Bytes and words as integers: which binary digit of which byte every bit of a word is. */
module ByteDigits {
  import opened Words
  import opened Bytes

  /** The value of a byte, as a number. */
  lemma ByteIs(b: byte)
    ensures FromByte(b) == b as int
  {
  }

  /** Bit `r` of a byte is digit `r` of its value. */
  lemma ByteTests(b: byte)
    ensures var x := b as int;
      && (b & 1 != 0 <==> x % 2 == 1) && (b & 2 != 0 <==> x / 2 % 2 == 1) && (b & 4 != 0 <==> x / 4 % 2 == 1)
      && (b & 8 != 0 <==> x / 8 % 2 == 1) && (b & 16 != 0 <==> x / 16 % 2 == 1) && (b & 32 != 0 <==> x / 32 % 2 == 1)
      && (b & 64 != 0 <==> x / 64 % 2 == 1) && (b & 128 != 0 <==> x / 128 % 2 == 1)
  {
    hide ToByte, FromByte, Flag;
    var x := b as int;
    ByteIs(b);
    ByteBack(x);
    ByteIs(ToByte(x));
    assert ToByte(x) == b;
    TestsOfDigits(x);
  }

  lemma TestsOfDigits(x: int)
    requires 0 <= x < 256
    ensures var b := ToByte(x);
      && (b & 1 != 0 <==> Digit(x, 1)) && (b & 2 != 0 <==> Digit(x, 2)) && (b & 4 != 0 <==> Digit(x, 4))
      && (b & 8 != 0 <==> Digit(x, 8)) && (b & 16 != 0 <==> Digit(x, 16)) && (b & 32 != 0 <==> Digit(x, 32))
      && (b & 64 != 0 <==> Digit(x, 64)) && (b & 128 != 0 <==> Digit(x, 128))
  {
    hide Digit, Flag;
    Masked(Digit(x, 128), Digit(x, 64), Digit(x, 32), Digit(x, 16), Digit(x, 8), Digit(x, 4), Digit(x, 2), Digit(x, 1));
  }

  /** A number of 16 bits, least significant byte first. */
  lemma U16Is(b: seq<byte>)
    requires |b| == 2
    ensures U16Of(b) == b[0] as int + 256 * (b[1] as int)
  {
    ByteIs(b[0]);
    ByteIs(b[1]);
  }

  lemma U32Is(b: seq<byte>)
    requires |b| == 4
    ensures U32Of(b) == b[0] as int + 256 * (b[1] as int) + 65536 * (b[2] as int) + 16777216 * (b[3] as int)
  {
    U16Is(b[..2]);
    U16Is(b[2..]);
  }

  // ---------- words ----------

  function LowByte(w: bv64): byte { (w & 0xFF) as bv8 }

  function Rest(w: bv64): bv64 { w >> 8 }

  /** The lowest bits of a word, and those of its lowest byte. */
  lemma LowBits(w: bv64)
    ensures var b := LowByte(w);
      && (Bit(w, 0) <==> b & 1 != 0) && (Bit(w, 1) <==> b & 2 != 0) && (Bit(w, 2) <==> b & 4 != 0)
      && (Bit(w, 3) <==> b & 8 != 0) && (Bit(w, 4) <==> b & 16 != 0) && (Bit(w, 5) <==> b & 32 != 0)
      && (Bit(w, 6) <==> b & 64 != 0) && (Bit(w, 7) <==> b & 128 != 0)
  {
    hide Half, Odd, LowByte;
    EightBits(w);
    EightTests(w);
  }

  lemma EightBits(w: bv64)
    ensures Bit(w, 0) <==> Odd(w)
    ensures Bit(w, 1) <==> Odd(Half(w))
    ensures Bit(w, 2) <==> Odd(Half(Half(w)))
    ensures Bit(w, 3) <==> Odd(Half(Half(Half(w))))
    ensures Bit(w, 4) <==> Odd(Half(Half(Half(Half(w)))))
    ensures Bit(w, 5) <==> Odd(Half(Half(Half(Half(Half(w))))))
    ensures Bit(w, 6) <==> Odd(Half(Half(Half(Half(Half(Half(w)))))))
    ensures Bit(w, 7) <==> Odd(Half(Half(Half(Half(Half(Half(Half(w))))))))
  {
    hide Half, Odd;
    FirstBits(w);
    FirstBits(Half(Half(Half(Half(w)))));
    FourDown(w, 0);
    FourDown(w, 1);
    FourDown(w, 2);
    FourDown(w, 3);
  }

  lemma FirstBits(w: bv64)
    ensures Bit(w, 0) <==> Odd(w)
    ensures Bit(w, 1) <==> Odd(Half(w))
    ensures Bit(w, 2) <==> Odd(Half(Half(w)))
    ensures Bit(w, 3) <==> Odd(Half(Half(Half(w))))
  {
    hide Half, Odd;
    assert Bit(Half(w), 1) <==> Odd(Half(Half(w)));
    assert Bit(Half(Half(w)), 1) <==> Odd(Half(Half(Half(w))));
    assert Bit(Half(w), 2) <==> Odd(Half(Half(Half(w))));
  }

  lemma FourDown(w: bv64, i: nat)
    ensures Bit(w, i + 4) <==> Bit(Half(Half(Half(Half(w)))), i)
  {
    hide Half, Odd;
    assert Bit(Half(Half(w)), i + 2) <==> Bit(Half(Half(Half(Half(w)))), i);
    assert Bit(w, i + 4) <==> Bit(Half(Half(w)), i + 2);
  }

  lemma EightTests(w: bv64)
    ensures var b := LowByte(w);
      && (Odd(w) <==> b & 1 != 0) && (Odd(Half(w)) <==> b & 2 != 0) && (Odd(Half(Half(w))) <==> b & 4 != 0)
      && (Odd(Half(Half(Half(w)))) <==> b & 8 != 0)
      && (Odd(Half(Half(Half(Half(w))))) <==> b & 16 != 0)
      && (Odd(Half(Half(Half(Half(Half(w)))))) <==> b & 32 != 0)
      && (Odd(Half(Half(Half(Half(Half(Half(w))))))) <==> b & 64 != 0)
      && (Odd(Half(Half(Half(Half(Half(Half(Half(w)))))))) <==> b & 128 != 0)
  {
  }

  lemma EightDown(w: bv64, i: nat)
    ensures Bit(w, i + 8) <==> Bit(Rest(w), i)
  {
    hide Bit, Half, Rest;
    FourDown(w, i + 4);
    FourDown(Half(Half(Half(Half(w)))), i);
    EightHalves(w);
  }

  lemma EightHalves(w: bv64)
    ensures Half(Half(Half(Half(Half(Half(Half(Half(w)))))))) == Rest(w)
  {
  }

  /** A word of eight bytes. */
  function Packed(b0: byte, b1: byte, b2: byte, b3: byte, b4: byte, b5: byte, b6: byte, b7: byte): bv64 {
    (b0 as bv64) | ((b1 as bv64) << 8) | ((b2 as bv64) << 16) | ((b3 as bv64) << 24)
    | ((b4 as bv64) << 32) | ((b5 as bv64) << 40) | ((b6 as bv64) << 48) | ((b7 as bv64) << 56)
  }

  lemma WordIs(b: seq<byte>)
    requires |b| == 8
    ensures WordOf(b) == Packed(b[0], b[1], b[2], b[3], b[4], b[5], b[6], b[7])
  {
  }

  lemma PackedBytes(b0: byte, b1: byte, b2: byte, b3: byte, b4: byte, b5: byte, b6: byte, b7: byte)
    ensures LowByte(Packed(b0, b1, b2, b3, b4, b5, b6, b7)) == b0
    ensures Rest(Packed(b0, b1, b2, b3, b4, b5, b6, b7)) == Packed(b1, b2, b3, b4, b5, b6, b7, 0)
  {
  }

  lemma BytesOfWord(b: seq<byte>)
    requires |b| == 8
    ensures LowByte(WordOf(b)) == b[0] && Rest(WordOf(b)) == WordOf(b[1..] + [0])
  {
    hide WordOf, Packed, LowByte, Rest;
    WordIs(b);
    MovedDown(b);
    PackedBytes(b[0], b[1], b[2], b[3], b[4], b[5], b[6], b[7]);
  }

  lemma MovedDown(b: seq<byte>)
    requires |b| == 8
    ensures WordOf(b[1..] + [0]) == Packed(b[1], b[2], b[3], b[4], b[5], b[6], b[7], 0)
  {
    hide WordOf, Packed;
    var c := b[1..] + [0];
    WordIs(c);
    assert c[0] == b[1] && c[1] == b[2] && c[2] == b[3] && c[3] == b[4] && c[4] == b[5] && c[5] == b[6] && c[6] == b[7];
  }

  /** Bit `8 * q + r` of a word is digit `r` of its byte `q`, the least significant byte first. */
  lemma {:induction false} WordDigit(b: seq<byte>, q: nat, r: nat)
    requires |b| == 8 && q < 8 && r < 8
    ensures Bit(WordOf(b), 8 * q + r) <==> (b[q] as int) / [1, 2, 4, 8, 16, 32, 64, 128][r] % 2 == 1
    decreases q
  {
    hide Bit, WordOf, LowByte, Rest;
    if q == 0 {
      LowestDigit(b, r);
    } else {
      EightDown(WordOf(b), 8 * (q - 1) + r);
      BytesOfWord(b);
      WordDigit(b[1..] + [0], q - 1, r);
    }
  }

  lemma LowestDigit(b: seq<byte>, r: nat)
    requires |b| == 8 && r < 8
    ensures Bit(WordOf(b), r) <==> (b[0] as int) / [1, 2, 4, 8, 16, 32, 64, 128][r] % 2 == 1
  {
    hide Bit, WordOf, LowByte, Rest;
    LowBits(WordOf(b));
    BytesOfWord(b);
    ByteTests(b[0]);
  }
}
