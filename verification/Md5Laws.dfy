// What the parts of MD5 compute, in the words of RFC 1321: bit by bit, byte by byte.
module Md5Laws {
  import opened Arith
  import opened Bits
  import opened Bytes
  import opened Shifts
  import opened Md5Spec

  // Section 3.4: in each bit F is "if x then y else z", G is "if z then x else y", H is the parity of
  // the three, I tells whether y differs from "x or not z".
  lemma AuxiliaryBits(x: u32, y: u32, z: u32, k: nat)
    requires k < 32
    ensures var a, b, c := BitAt(x, k), BitAt(y, k), BitAt(z, k);
            && (BitAt(F(x, y, z), k) <==> if a then b else c)
            && (BitAt(G(x, y, z), k) <==> if c then a else b)
            && (BitAt(H(x, y, z), k) <==> (a && b && c) || (a && !b && !c) || (!a && b && !c) || (!a && !b && c))
            && (BitAt(I(x, y, z), k) <==> b != (a || !c))
  {
    hide BitAt, And, Or, Xor, Not;
    NotBit(x, k);
    NotBit(z, k);
    AndBit(x, y, k);
    AndBit(Not(x), z, k);
    OrBit(And(x, y), And(Not(x), z), k);
    AndBit(x, z, k);
    AndBit(y, Not(z), k);
    OrBit(And(x, z), And(y, Not(z)), k);
    XorBit(x, y, k);
    XorBit(Xor(x, y), z, k);
    OrBit(x, Not(z), k);
    XorBit(y, OrWord(x, Not(z)), k);
  }

  // An operation can be undone: subtract b, rotate back, subtract the rest.
  lemma StirUndone(a: u32, f: u32, b: u32, x: u32, s: nat, t: u32)
    requires 1 <= s <= 31
    ensures (Ror((Stir(a, f, b, x, s, t) as int - b as int) % W32, s) as int - f as int - x as int - t as int) % W32 == a
  {
    hide Rol, Ror;
    var sum := Add(a, Add(Add(f, x), t));
    var r := Rol(sum, s);
    RolRor(sum, s);
    Cancel(r, b);
    assert (Stir(a, f, b, x, s, t) as int - b as int) % W32 == r;
    SumOfFour(a, f, x, t);
  }

  lemma Cancel(r: u32, b: u32)
    ensures (Add(r, b) as int - b as int) % W32 == r
  {
  }

  lemma SumOfFour(a: u32, f: u32, x: u32, t: u32)
    ensures (Add(a, Add(Add(f, x), t)) as int - f as int - x as int - t as int) % W32 == a
  {
    Multiple(f as int + x as int);
    Multiple(Add(f, x) as int + t as int);
    Multiple(a as int + Add(Add(f, x), t) as int);
    var h := (f as int + x as int) / W32 + (Add(f, x) as int + t as int) / W32 + (a as int + Add(Add(f, x), t) as int) / W32;
    DivModUnique(a as int - W32 * h, W32, -h);
  }

  lemma Multiple(v: int)
    ensures v == W32 * (v / W32) + v % W32
  {
  }

  // A block adds, word by word, what the 64 operations make of the state.
  lemma CompressAdds(q: Quad, block: seq<Byte>)
    requires |block| == 64
    ensures var r, t := Compress(q, block), Operations(q, Decode(block), 64);
            && (r.a as int - q.a as int - t.a as int) % W32 == 0 && (r.b as int - q.b as int - t.b as int) % W32 == 0
            && (r.c as int - q.c as int - t.c as int) % W32 == 0 && (r.d as int - q.d as int - t.d as int) % W32 == 0
  {
    hide Operations, Decode, Add;
    var t := Operations(q, Decode(block), 64);
    AddLaw(q.a, t.a);
    AddLaw(q.b, t.b);
    AddLaw(q.c, t.c);
    AddLaw(q.d, t.d);
  }

  lemma AddLaw(x: u32, y: u32)
    ensures (Add(x, y) as int - x as int - y as int) % W32 == 0
  {
  }

  // The operation, within its round, that reads word k.
  function Reader(round: nat, k: nat): nat {
    if round == 0 then k
    else if round == 1 then (13 * k + 3) % 16
    else if round == 2 then (11 * k + 9) % 16
    else 7 * k % 16
  }

  // Each round reads every word of the block exactly once.
  lemma WordsOnce(i: nat)
    requires i < 64
    ensures Reader(i / 16, WordIndex(i)) == i % 16
  {
    if 16 <= i < 32 {
      Inverse(i, 5, 1, 13, 3);
    } else if 32 <= i < 48 {
      Inverse(i, 3, 5, 11, 9);
    } else if i >= 48 {
      Inverse(i, 7, 0, 7, 0);
    }
  }

  // Multiplying by m and by w modulo 16 cancel out.
  lemma Inverse(i: nat, m: nat, c: nat, w: nat, d: nat)
    requires (m, c, w, d) in {(5, 1, 13, 3), (3, 5, 11, 9), (7, 0, 7, 0)}
    ensures (w * ((m * i + c) % 16) + d) % 16 == i % 16
  {
    var q, p := (m * i + c) / 16, i / 16;
    assert m * i + c == 16 * q + (m * i + c) % 16 && i == 16 * p + i % 16;
    var h := if m == 5 then 4 * i + 1 else if m == 3 then 2 * i + 4 else 3 * i;
    DivModUnique(w * ((m * i + c) % 16) + d, 16, h + p - w * q);
  }

  // Section 3.3: the initial words are the bytes 01 23 45 67, 89 ab cd ef and these downwards.
  lemma InitBytes()
    ensures Encode(QuadWords(INIT)) == [0x01, 0x23, 0x45, 0x67, 0x89, 0xAB, 0xCD, 0xEF,
                                        0xFE, 0xDC, 0xBA, 0x98, 0x76, 0x54, 0x32, 0x10]
  {
    hide BytesOf, Encode;
    BytesOfWord(INIT.a);
    BytesOfWord(INIT.b);
    BytesOfWord(INIT.c);
    BytesOfWord(INIT.d);
    EncodeOne(INIT.d, []);
    EncodeOne(INIT.c, [INIT.d]);
    EncodeOne(INIT.b, [INIT.c, INIT.d]);
    EncodeOne(INIT.a, [INIT.b, INIT.c, INIT.d]);
    assert [INIT.a] + [INIT.b, INIT.c, INIT.d] == QuadWords(INIT);
    assert [INIT.b] + [INIT.c, INIT.d] == [INIT.b, INIT.c, INIT.d];
    assert [INIT.c] + [INIT.d] == [INIT.c, INIT.d] && [INIT.d] + [] == [INIT.d];
    assert BytesOf(INIT.a) == [0x01, 0x23, 0x45, 0x67] && BytesOf(INIT.b) == [0x89, 0xAB, 0xCD, 0xEF];
    assert BytesOf(INIT.c) == [0xFE, 0xDC, 0xBA, 0x98] && BytesOf(INIT.d) == [0x76, 0x54, 0x32, 0x10];
  }

  lemma EncodeOne(w: u32, ws: seq<u32>)
    ensures Encode([w] + ws) == BytesOf(w) + Encode(ws)
    ensures Encode([]) == []
  {
    assert ([w] + ws)[1..] == ws;
  }

  // Section 2: byte 4 i + j of encoded words is base-256 digit j of word i.
  lemma {:induction false} EncodedByte(ws: seq<u32>, i: nat, j: nat)
    requires i < |ws| && j < 4
    ensures Encode(ws)[4 * i + j] == ws[i] / Pow2(8 * j) % 0x100
  {
    if i == 0 {
      FirstWordByte(ws, j);
    } else {
      hide BytesOf, Pow2;
      EncodedByte(ws[1..], i - 1, j);
      assert Encode(ws)[4 * i + j] == Encode(ws[1..])[4 * (i - 1) + j];
    }
  }

  lemma FirstWordByte(ws: seq<u32>, j: nat)
    requires 0 < |ws| && j < 4
    ensures Encode(ws)[j] == ws[0] / Pow2(8 * j) % 0x100
  {
    hide BytesOf, Pow2;
    var w := ws[0];
    BytesOfWord(w);
    assert Encode(ws)[j] == BytesOf(w)[j];
    ByteDigit(w, j);
  }

  lemma ByteDigit(w: u32, j: nat)
    requires j < 4
    ensures [w % 0x100, w / 0x100 % 0x100, w / 0x1_0000 % 0x100, w / 0x100_0000 % 0x100][j] == w / Pow2(8 * j) % 0x100
  {
    ShiftedBytes();
    hide Pow2;
    if j == 0 {
      PowZero();
      assert Pow2(8 * j) == 1;
    } else if j == 1 {
      assert Pow2(8 * j) == 0x100;
    } else if j == 2 {
      assert Pow2(8 * j) == 0x1_0000;
    } else {
      assert Pow2(8 * j) == 0x100_0000;
    }
  }

  lemma PowZero()
    ensures Pow2(0) == 1
  {
  }

  // Digit j of the 64-bit number n.
  function Digit(n: nat, j: nat): nat { n / Pow2(8 * j) % 0x100 }

  // Section 3.2: byte j of the length is digit j of the length in bits.
  lemma LengthByte(n: nat, j: nat)
    requires j < 8
    ensures LengthBytes(n)[j] == Digit(8 * n, j)
  {
    hide Encode, Pow2;
    var ws := [8 * n % W32, 8 * n / W32 % W32];
    Pow32();
    if j < 4 {
      EncodedByte(ws, 0, j);
      DigitOfRemainder(8 * n, j);
    } else {
      EncodedByte(ws, 1, j - 4);
      DigitOfRemainder(8 * n / W32, j - 4);
      Pow2Add(32, 8 * (j - 4));
      DivDiv(8 * n, Pow2(8 * (j - 4)));
    }
  }

  lemma DivDiv(x: nat, q: nat)
    requires q > 0
    ensures x / (W32 * q) == x / W32 / q
  {
    var h := x / W32;
    var d, e := h / q, h % q;
    assert h == q * d + e;
    assert (W32 * q) * d == W32 * (q * d);
    DivModUnique(x, W32 * q, d);
  }

  // The low four digits are those of the low word.
  lemma DigitOfRemainder(x: nat, j: nat)
    requires j < 4
    ensures Digit(x % W32, j) == Digit(x, j)
  {
    ShiftedBytes();
    hide Pow2;
    if j == 0 {
      PowZero();
      DigitAbove(x, 1, W32);
    } else if j == 1 {
      DigitAbove(x, 0x100, 0x100_0000);
    } else if j == 2 {
      DigitAbove(x, 0x1_0000, 0x1_0000);
    } else {
      DigitAbove(x, 0x100_0000, 0x100);
    }
    assert Pow2(8 * j) == if j == 0 then 1 else if j == 1 then 0x100 else if j == 2 then 0x1_0000 else 0x100_0000;
  }

  lemma DigitAbove(x: nat, p: nat, m: nat)
    requires p > 0 && p * m == W32 && m % 0x100 == 0
    ensures x % W32 / p % 0x100 == x / p % 0x100
  {
    var q, r := x / W32, x % W32;
    var d, e := r / p, m / 0x100;
    assert x == W32 * q + r && W32 * q == p * (m * q) by {
      assert (p * m) * q == p * (m * q);
    }
    assert r == p * d + r % p && p * (m * q + d) == p * (m * q) + p * d;
    DivModUnique(x, p, m * q + d);
    assert m == 0x100 * e && m * q == 0x100 * (e * q);
    DivModUnique(m * q + d, 0x100, e * q + d / 0x100);
  }

  lemma {:induction false} ZeroAt(n: nat, k: nat)
    requires k < n
    ensures Zeros(n)[k] == 0
  {
    if k > 0 {
      ZeroAt(n - 1, k - 1);
    }
  }

  // Sections 3.1 and 3.2, byte by byte: the message, one 0x80, zeros up to 56 modulo 64, and the
  // length in bits, low-order byte first.
  lemma PaddedByte(msg: seq<Byte>, k: nat)
    requires k < |Padded(msg)|
    ensures |Padded(msg)| % 64 == 0 && |msg| + 9 <= |Padded(msg)| <= |msg| + 72
    ensures var n, end := |msg|, |Padded(msg)| - 8;
            Padded(msg)[k] == if k < n then msg[k]
                              else if k == n then 0x80
                              else if k < end then 0
                              else Digit(8 * n, k - end)
  {
    hide LengthBytes, Digit, PadLen;
    var n, p := |msg|, PadLen(|msg|);
    PadLenMeaning(n);
    PaddedBlocks(msg);
    if n < k < n + p {
      ZeroAt(p - 1, k - n - 1);
    } else if k >= n + p {
      LengthByte(n, k - (n + p));
    }
  }
}
