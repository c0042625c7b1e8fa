// Words as four bytes, low-order byte first.
module Bytes {
  import opened Bits

  type Byte = b: nat | b < 0x100

  // w & 0xFF
  function LowByte(w: u32): Byte { And(w, 0xFF) }

  function BytesOf(w: u32): seq<Byte> {
    [LowByte(w), LowByte(Shr(w, 8)), LowByte(Shr(w, 16)), LowByte(Shr(w, 24))]
  }

  // The four bytes shifted into place and or'd together.
  function WordOf(b0: Byte, b1: Byte, b2: Byte, b3: Byte): u32 {
    OrWord(OrWord(OrWord(b0, Shl(b1, 8)), Shl(b2, 16)), Shl(b3, 24))
  }

  lemma ShiftedBytes()
    ensures Pow2(8) == 0x100 && Pow2(16) == 0x1_0000 && Pow2(24) == 0x100_0000
  {
    assert Pow2(8) == 0x100;
    Pow2Add(8, 8);
    Pow2Add(8, 16);
  }

  // Or-ing a byte shifted above l adds it.
  lemma OrShifted(l: u32, b: Byte, n: nat)
    requires l < Pow2(n) && b * Pow2(n) + l < W32
    ensures OrWord(l, Shl(b, n)) == l + b * Pow2(n)
  {
    hide Pow2, Or;
    var h := b * Pow2(n);
    assert Shl(b, n) == h;
    OrCommutes(l, h);
    OrDisjoint(b, l, n);
  }

  // The four bytes in their places add up.
  lemma WordOfSum(b0: Byte, b1: Byte, b2: Byte, b3: Byte)
    ensures WordOf(b0, b1, b2, b3) == b0 + 0x100 * b1 + 0x1_0000 * b2 + 0x100_0000 * b3
  {
    hide Pow2, OrWord, Shl;
    ShiftedBytes();
    OrShifted(b0, b1, 8);
    var w1 := b0 + b1 * 0x100;
    OrShifted(w1, b2, 16);
    OrShifted(w1 + b2 * 0x1_0000, b3, 24);
  }

  lemma LowByteIs(w: u32)
    ensures LowByte(w) == w % 0x100
  {
    ShiftedBytes();
    LowMask(w, 8);
  }

  lemma BytesOfWord(w: u32)
    ensures BytesOf(w) == [w % 0x100, w / 0x100 % 0x100, w / 0x1_0000 % 0x100, w / 0x100_0000 % 0x100]
  {
    hide Pow2, LowByte;
    ShiftedBytes();
    LowByteIs(w);
    LowByteIs(Shr(w, 8));
    LowByteIs(Shr(w, 16));
    LowByteIs(Shr(w, 24));
  }

  lemma WordBytes(w: u32)
    ensures var b := BytesOf(w); WordOf(b[0], b[1], b[2], b[3]) == w
  {
    hide BytesOf, WordOf;
    BytesOfWord(w);
    var b := BytesOf(w);
    WordOfSum(b[0], b[1], b[2], b[3]);
    var w1 := w / 0x100;
    var w2 := w1 / 0x100;
    assert w == w % 0x100 + 0x100 * w1 && w1 == w1 % 0x100 + 0x100 * w2;
    assert w2 == w / 0x1_0000 && w2 / 0x100 == w / 0x100_0000;
  }

  lemma ByteWords(b0: Byte, b1: Byte, b2: Byte, b3: Byte)
    ensures BytesOf(WordOf(b0, b1, b2, b3)) == [b0, b1, b2, b3]
  {
    hide BytesOf, WordOf;
    var w := WordOf(b0, b1, b2, b3);
    WordOfSum(b0, b1, b2, b3);
    BytesOfWord(w);
    assert w / 0x100 == b1 + 0x100 * b2 + 0x1_0000 * b3;
    assert w / 0x1_0000 == b2 + 0x100 * b3;
    assert w / 0x100_0000 == b3;
  }
}
