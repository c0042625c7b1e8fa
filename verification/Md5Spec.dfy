// MD5 as sections 2 and 3 of RFC 1321 define it: a table-driven compression folded over the
// 64-byte blocks of the padded message.
module Md5Spec {
  import opened Bits
  import opened Bytes

  // The four words A, B, C, D.
  datatype Quad = Quad(a: u32, b: u32, c: u32, d: u32)

  // Section 3.3
  const INIT := Quad(0x6745_2301, 0xEFCD_AB89, 0x98BA_DCFE, 0x1032_5476)

  // ---- Section 2: words and bytes, low-order byte first ----

  function Encode(ws: seq<u32>): (bs: seq<Byte>)
    ensures |bs| == 4 * |ws|
  {
    if ws == [] then [] else BytesOf(ws[0]) + Encode(ws[1..])
  }

  function Decode(bs: seq<Byte>): (ws: seq<u32>)
    requires |bs| % 4 == 0
    ensures 4 * |ws| == |bs|
  {
    if bs == [] then [] else [WordOf(bs[0], bs[1], bs[2], bs[3])] + Decode(bs[4..])
  }

  // ---- Section 3.4: the compression of one block ----

  // The auxiliary functions, as macros in md5.h.
  function F(x: u32, y: u32, z: u32): u32 { OrWord(And(x, y), And(Not(x), z)) }

  function G(x: u32, y: u32, z: u32): u32 { OrWord(And(x, z), And(y, Not(z))) }

  function H(x: u32, y: u32, z: u32): u32 { XorWord(XorWord(x, y), z) }

  function I(x: u32, y: u32, z: u32): u32 { XorWord(y, OrWord(x, Not(z))) }

  // The auxiliary function of operation i.
  function Aux(i: nat, x: u32, y: u32, z: u32): u32 {
    if i < 16 then F(x, y, z)
    else if i < 32 then G(x, y, z)
    else if i < 48 then H(x, y, z)
    else I(x, y, z)
  }

  // The message word operation i reads.
  function WordIndex(i: nat): (k: nat)
    ensures k < 16
  {
    if i < 16 then i
    else if i < 32 then (5 * i + 1) % 16
    else if i < 48 then (3 * i + 5) % 16
    else (7 * i) % 16
  }

  function Shift(i: nat): (s: nat)
    ensures 4 <= s <= 23
  {
    if i < 16 then (if i % 4 == 0 then 7 else if i % 4 == 1 then 12 else if i % 4 == 2 then 17 else 22)
    else if i < 32 then (if i % 4 == 0 then 5 else if i % 4 == 1 then 9 else if i % 4 == 2 then 14 else 20)
    else if i < 48 then (if i % 4 == 0 then 4 else if i % 4 == 1 then 11 else if i % 4 == 2 then 16 else 23)
    else (if i % 4 == 0 then 6 else if i % 4 == 1 then 10 else if i % 4 == 2 then 15 else 21)
  }

  // T[i + 1]: the integer part of 4294967296 * abs(sin(i + 1)), i + 1 in radians.
  function Sine(i: nat): u32 {
    if i < 16 then Sine1(i) else if i < 32 then Sine2(i) else if i < 48 then Sine3(i) else Sine4(i)
  }

  function Sine1(i: nat): u32 {
    match i
    case 0 => 0xD76A_A478
    case 1 => 0xE8C7_B756
    case 2 => 0x2420_70DB
    case 3 => 0xC1BD_CEEE
    case 4 => 0xF57C_0FAF
    case 5 => 0x4787_C62A
    case 6 => 0xA830_4613
    case 7 => 0xFD46_9501
    case 8 => 0x6980_98D8
    case 9 => 0x8B44_F7AF
    case 10 => 0xFFFF_5BB1
    case 11 => 0x895C_D7BE
    case 12 => 0x6B90_1122
    case 13 => 0xFD98_7193
    case 14 => 0xA679_438E
    case _ => 0x49B4_0821
  }

  function Sine2(i: nat): u32 {
    match i
    case 16 => 0xF61E_2562
    case 17 => 0xC040_B340
    case 18 => 0x265E_5A51
    case 19 => 0xE9B6_C7AA
    case 20 => 0xD62F_105D
    case 21 => 0x0244_1453
    case 22 => 0xD8A1_E681
    case 23 => 0xE7D3_FBC8
    case 24 => 0x21E1_CDE6
    case 25 => 0xC337_07D6
    case 26 => 0xF4D5_0D87
    case 27 => 0x455A_14ED
    case 28 => 0xA9E3_E905
    case 29 => 0xFCEF_A3F8
    case 30 => 0x676F_02D9
    case _ => 0x8D2A_4C8A
  }

  function Sine3(i: nat): u32 {
    match i
    case 32 => 0xFFFA_3942
    case 33 => 0x8771_F681
    case 34 => 0x6D9D_6122
    case 35 => 0xFDE5_380C
    case 36 => 0xA4BE_EA44
    case 37 => 0x4BDE_CFA9
    case 38 => 0xF6BB_4B60
    case 39 => 0xBEBF_BC70
    case 40 => 0x289B_7EC6
    case 41 => 0xEAA1_27FA
    case 42 => 0xD4EF_3085
    case 43 => 0x0488_1D05
    case 44 => 0xD9D4_D039
    case 45 => 0xE6DB_99E5
    case 46 => 0x1FA2_7CF8
    case _ => 0xC4AC_5665
  }

  function Sine4(i: nat): u32 {
    match i
    case 48 => 0xF429_2244
    case 49 => 0x432A_FF97
    case 50 => 0xAB94_23A7
    case 51 => 0xFC93_A039
    case 52 => 0x655B_59C3
    case 53 => 0x8F0C_CC92
    case 54 => 0xFFEF_F47D
    case 55 => 0x8584_5DD1
    case 56 => 0x6FA8_7E4F
    case 57 => 0xFE2C_E6E0
    case 58 => 0xA301_4314
    case 59 => 0x4E08_11A1
    case 60 => 0xF753_7E82
    case 61 => 0xBD3A_F235
    case 62 => 0x2AD7_D2BB
    case _ => 0xEB86_D391
  }

  // Addition modulo 2^32.
  function Add(x: u32, y: u32): u32 { (x as int + y) % W32 }

  // b + ((a + f + X[k] + T[i]) <<< s)
  function Stir(a: u32, f: u32, b: u32, x: u32, s: nat, t: u32): u32
    requires s <= 32
  {
    Add(Rol(Add(a, Add(Add(f, x), t)), s), b)
  }

  // The word operation i computes.
  function Mixed(i: nat, a: u32, b: u32, c: u32, d: u32, x: seq<u32>): u32
    requires |x| == 16
  {
    Stir(a, Aux(i, b, c, d), b, x[WordIndex(i)], Shift(i), Sine(i))
  }

  // One operation; then the four words rotate.
  function Operation(q: Quad, x: seq<u32>, i: nat): Quad
    requires |x| == 16
  {
    Quad(q.d, Mixed(i, q.a, q.b, q.c, q.d, x), q.b, q.c)
  }

  // The first n operations.
  function Operations(q: Quad, x: seq<u32>, n: nat): Quad
    requires |x| == 16
  {
    if n == 0 then q else Operation(Operations(q, x, n - 1), x, n - 1)
  }

  function Compress(q: Quad, block: seq<Byte>): Quad
    requires |block| == 64
  {
    var r := Operations(q, Decode(block), 64);
    Quad(Add(q.a, r.a), Add(q.b, r.b), Add(q.c, r.c), Add(q.d, r.d))
  }

  // All complete blocks of bs, in order.
  function Blocks(q: Quad, bs: seq<Byte>): Quad
    decreases |bs|
  {
    if |bs| < 64 then q else Blocks(Compress(q, bs[..64]), bs[64..])
  }

  // ---- Sections 3.1, 3.2 and 3.5: padding, length, digest ----

  function Zeros(n: nat): (z: seq<Byte>)
    ensures |z| == n
  {
    if n == 0 then [] else [0] + Zeros(n - 1)
  }

  // The number of padding bytes for a message of n bytes.
  function PadLen(n: nat): nat {
    if n % 64 < 56 then 56 - n % 64 else 120 - n % 64
  }

  // A one bit, then zero bits.
  function Padding(n: nat): (p: seq<Byte>)
    requires n > 0
    ensures |p| == n
  {
    [0x80] + Zeros(n - 1)
  }

  // The low-order 64 bits of the length in bits, low-order word first.
  function LengthBytes(n: nat): (bs: seq<Byte>)
    ensures |bs| == 8
  {
    Encode([8 * n % W32, 8 * n / W32 % W32])
  }

  function Padded(msg: seq<Byte>): seq<Byte> {
    msg + Padding(PadLen(|msg|)) + LengthBytes(|msg|)
  }

  function QuadWords(q: Quad): seq<u32> { [q.a, q.b, q.c, q.d] }

  function Md5(msg: seq<Byte>): (digest: seq<Byte>)
    ensures |digest| == 16
  {
    Encode(QuadWords(Blocks(INIT, Padded(msg))))
  }

  // ---- Properties ----

  lemma NoOperations(q: Quad, x: seq<u32>)
    requires |x| == 16
    ensures Operations(q, x, 0) == q
  {
  }

  // Four operations bring the words back to their places.
  lemma FourOperations(q: Quad, x: seq<u32>, n: nat)
    requires |x| == 16
    ensures var p := Operations(q, x, n);
            var a := Mixed(n, p.a, p.b, p.c, p.d, x);
            var d := Mixed(n + 1, p.d, a, p.b, p.c, x);
            var c := Mixed(n + 2, p.c, d, a, p.b, x);
            var b := Mixed(n + 3, p.b, c, d, a, x);
            Operations(q, x, n + 4) == Quad(a, b, c, d)
  {
    var p1, p2 := Operations(q, x, n + 1), Operations(q, x, n + 2);
    assert p1 == Operation(Operations(q, x, n), x, n);
    assert p2 == Operation(p1, x, n + 1);
    var p3 := Operations(q, x, n + 3);
    assert p3 == Operation(p2, x, n + 2);
    assert Operations(q, x, n + 4) == Operation(p3, x, n + 3);
  }

  // Decoding encoded words gives the words back.
  lemma {:induction false} DecodeEncode(ws: seq<u32>)
    ensures Decode(Encode(ws)) == ws
  {
    if ws != [] {
      var bs := Encode(ws);
      WordBytes(ws[0]);
      DecodeEncode(ws[1..]);
      assert bs[4..] == Encode(ws[1..]);
    }
  }

  // Encoding decoded bytes gives the bytes back.
  lemma {:induction false} EncodeDecode(bs: seq<Byte>)
    requires |bs| % 4 == 0
    ensures Encode(Decode(bs)) == bs
  {
    hide BytesOf, WordOf;
    if bs != [] {
      ByteWords(bs[0], bs[1], bs[2], bs[3]);
      EncodeDecode(bs[4..]);
      assert Decode(bs)[1..] == Decode(bs[4..]);
      assert bs == [bs[0], bs[1], bs[2], bs[3]] + bs[4..];
    }
  }

  // Between 1 and 64 bytes are added, to 56 modulo 64.
  lemma PadLenMeaning(n: nat)
    ensures 1 <= PadLen(n) <= 64 && (n + PadLen(n)) % 64 == 56
  {
  }

  // The padded message is a whole number of blocks.
  lemma PaddedBlocks(msg: seq<Byte>)
    ensures |Padded(msg)| % 64 == 0
  {
    PadLenMeaning(|msg|);
    EightMore(|msg| + PadLen(|msg|));
  }

  lemma EightMore(k: nat)
    requires k % 64 == 56
    ensures (k + 8) % 64 == 0
  {
  }

  // The fold over blocks splits at every block boundary.
  lemma {:induction false} BlocksAppend(q: Quad, s: seq<Byte>, t: seq<Byte>)
    requires |s| % 64 == 0
    ensures Blocks(q, s + t) == Blocks(Blocks(q, s), t)
    decreases |s|
  {
    hide Compress;
    if s == [] {
      assert s + t == t;
    } else {
      assert (s + t)[..64] == s[..64] && (s + t)[64..] == s[64..] + t;
      BlocksAppend(Compress(q, s[..64]), s[64..], t);
    }
  }

  // One more complete block.
  lemma BlocksSnoc(q: Quad, s: seq<Byte>, block: seq<Byte>)
    requires |s| % 64 == 0 && |block| == 64
    ensures Blocks(q, s + block) == Compress(Blocks(q, s), block)
  {
    BlocksAppend(q, s, block);
    assert block[..64] == block && block[64..] == [];
  }
}
