// MD5 as vapps/md5.c computes it: unrolled, buffered and chunk by chunk.
module Md5Machine {
  import opened Arith
  import opened Bits
  import opened Bytes
  import opened Md5Spec

  // An unsigned sum drops its overflow once or step by step.
  lemma MacroSum(a: u32, f: u32, x: u32, ac: u32)
    ensures Add(a, Add(Add(f, x), ac)) == (a as int + f as int + x as int + ac as int) % W32
  {
    LateOverflow(ac, f as int + x as int);
    LateOverflow(a, f as int + x as int + ac as int);
  }

  lemma LateOverflow(x: int, y: int)
    ensures (x + y % W32) % W32 == (x + y) % W32
  {
    DivModUnique(x + y, W32, (x + y % W32) / W32 + y / W32);
  }

  // The macro FF as operation i: the new value of a.
  method FF(a: u32, b: u32, c: u32, d: u32, x: u32, s: nat, ac: u32, ghost i: nat, ghost xs: seq<u32>)
    returns (r: u32)
    requires |xs| == 16 && 0 <= i < 16 && x == xs[WordIndex(i)] && s == Shift(i) && ac == Sine(i)
    ensures r == Mixed(i, a, b, c, d, xs)
  {
    hide Rol, And, OrWord, XorWord, Not;
    MacroSum(a, F(b, c, d), x, ac);
    r := (a as int + OrWord(And(b, c), And(Not(b), d)) as int + x as int + ac as int) % W32;
    r := Rol(r, s);
    r := (r as int + b as int) % W32;
  }

  // The macro GG as operation i: the new value of a.
  method GG(a: u32, b: u32, c: u32, d: u32, x: u32, s: nat, ac: u32, ghost i: nat, ghost xs: seq<u32>)
    returns (r: u32)
    requires |xs| == 16 && 16 <= i < 32 && x == xs[WordIndex(i)] && s == Shift(i) && ac == Sine(i)
    ensures r == Mixed(i, a, b, c, d, xs)
  {
    hide Rol, And, OrWord, XorWord, Not;
    MacroSum(a, G(b, c, d), x, ac);
    r := (a as int + OrWord(And(b, d), And(c, Not(d))) as int + x as int + ac as int) % W32;
    r := Rol(r, s);
    r := (r as int + b as int) % W32;
  }

  // The macro HH as operation i: the new value of a.
  method HH(a: u32, b: u32, c: u32, d: u32, x: u32, s: nat, ac: u32, ghost i: nat, ghost xs: seq<u32>)
    returns (r: u32)
    requires |xs| == 16 && 32 <= i < 48 && x == xs[WordIndex(i)] && s == Shift(i) && ac == Sine(i)
    ensures r == Mixed(i, a, b, c, d, xs)
  {
    hide Rol, And, OrWord, XorWord, Not;
    MacroSum(a, H(b, c, d), x, ac);
    r := (a as int + XorWord(XorWord(b, c), d) as int + x as int + ac as int) % W32;
    r := Rol(r, s);
    r := (r as int + b as int) % W32;
  }

  // The macro II as operation i: the new value of a.
  method II(a: u32, b: u32, c: u32, d: u32, x: u32, s: nat, ac: u32, ghost i: nat, ghost xs: seq<u32>)
    returns (r: u32)
    requires |xs| == 16 && 48 <= i < 64 && x == xs[WordIndex(i)] && s == Shift(i) && ac == Sine(i)
    ensures r == Mixed(i, a, b, c, d, xs)
  {
    hide Rol, And, OrWord, XorWord, Not;
    MacroSum(a, I(b, c, d), x, ac);
    r := (a as int + XorWord(c, OrWord(b, Not(d))) as int + x as int + ac as int) % W32;
    r := Rol(r, s);
    r := (r as int + b as int) % W32;
  }

  // Round 1 of MD5Transform, operations 1 to 16.
  method Round1(a0: u32, b0: u32, c0: u32, d0: u32, x: seq<u32>, ghost q: Quad)
    returns (a: u32, b: u32, c: u32, d: u32)
    requires |x| == 16 && Quad(a0, b0, c0, d0) == Operations(q, x, 0)
    ensures Quad(a, b, c, d) == Operations(q, x, 16)
  {
    hide Mixed, Operations, Operation;
    a, b, c, d := a0, b0, c0, d0;
    a := FF(a, b, c, d, x[0], 7, 0xD76A_A478, 0, x);
    d := FF(d, a, b, c, x[1], 12, 0xE8C7_B756, 1, x);
    c := FF(c, d, a, b, x[2], 17, 0x2420_70DB, 2, x);
    b := FF(b, c, d, a, x[3], 22, 0xC1BD_CEEE, 3, x);
    FourOperations(q, x, 0);
    a := FF(a, b, c, d, x[4], 7, 0xF57C_0FAF, 4, x);
    d := FF(d, a, b, c, x[5], 12, 0x4787_C62A, 5, x);
    c := FF(c, d, a, b, x[6], 17, 0xA830_4613, 6, x);
    b := FF(b, c, d, a, x[7], 22, 0xFD46_9501, 7, x);
    FourOperations(q, x, 4);
    a := FF(a, b, c, d, x[8], 7, 0x6980_98D8, 8, x);
    d := FF(d, a, b, c, x[9], 12, 0x8B44_F7AF, 9, x);
    c := FF(c, d, a, b, x[10], 17, 0xFFFF_5BB1, 10, x);
    b := FF(b, c, d, a, x[11], 22, 0x895C_D7BE, 11, x);
    FourOperations(q, x, 8);
    a := FF(a, b, c, d, x[12], 7, 0x6B90_1122, 12, x);
    d := FF(d, a, b, c, x[13], 12, 0xFD98_7193, 13, x);
    c := FF(c, d, a, b, x[14], 17, 0xA679_438E, 14, x);
    b := FF(b, c, d, a, x[15], 22, 0x49B4_0821, 15, x);
    FourOperations(q, x, 12);
  }

  // Round 2 of MD5Transform, operations 17 to 32.
  method Round2(a0: u32, b0: u32, c0: u32, d0: u32, x: seq<u32>, ghost q: Quad)
    returns (a: u32, b: u32, c: u32, d: u32)
    requires |x| == 16 && Quad(a0, b0, c0, d0) == Operations(q, x, 16)
    ensures Quad(a, b, c, d) == Operations(q, x, 32)
  {
    hide Mixed, Operations, Operation;
    a, b, c, d := a0, b0, c0, d0;
    a := GG(a, b, c, d, x[1], 5, 0xF61E_2562, 16, x);
    d := GG(d, a, b, c, x[6], 9, 0xC040_B340, 17, x);
    c := GG(c, d, a, b, x[11], 14, 0x265E_5A51, 18, x);
    b := GG(b, c, d, a, x[0], 20, 0xE9B6_C7AA, 19, x);
    FourOperations(q, x, 16);
    a := GG(a, b, c, d, x[5], 5, 0xD62F_105D, 20, x);
    d := GG(d, a, b, c, x[10], 9, 0x0244_1453, 21, x);
    c := GG(c, d, a, b, x[15], 14, 0xD8A1_E681, 22, x);
    b := GG(b, c, d, a, x[4], 20, 0xE7D3_FBC8, 23, x);
    FourOperations(q, x, 20);
    a := GG(a, b, c, d, x[9], 5, 0x21E1_CDE6, 24, x);
    d := GG(d, a, b, c, x[14], 9, 0xC337_07D6, 25, x);
    c := GG(c, d, a, b, x[3], 14, 0xF4D5_0D87, 26, x);
    b := GG(b, c, d, a, x[8], 20, 0x455A_14ED, 27, x);
    FourOperations(q, x, 24);
    a := GG(a, b, c, d, x[13], 5, 0xA9E3_E905, 28, x);
    d := GG(d, a, b, c, x[2], 9, 0xFCEF_A3F8, 29, x);
    c := GG(c, d, a, b, x[7], 14, 0x676F_02D9, 30, x);
    b := GG(b, c, d, a, x[12], 20, 0x8D2A_4C8A, 31, x);
    FourOperations(q, x, 28);
  }

  // Round 3 of MD5Transform, operations 33 to 48.
  method Round3(a0: u32, b0: u32, c0: u32, d0: u32, x: seq<u32>, ghost q: Quad)
    returns (a: u32, b: u32, c: u32, d: u32)
    requires |x| == 16 && Quad(a0, b0, c0, d0) == Operations(q, x, 32)
    ensures Quad(a, b, c, d) == Operations(q, x, 48)
  {
    hide Mixed, Operations, Operation;
    a, b, c, d := a0, b0, c0, d0;
    a := HH(a, b, c, d, x[5], 4, 0xFFFA_3942, 32, x);
    d := HH(d, a, b, c, x[8], 11, 0x8771_F681, 33, x);
    c := HH(c, d, a, b, x[11], 16, 0x6D9D_6122, 34, x);
    b := HH(b, c, d, a, x[14], 23, 0xFDE5_380C, 35, x);
    FourOperations(q, x, 32);
    a := HH(a, b, c, d, x[1], 4, 0xA4BE_EA44, 36, x);
    d := HH(d, a, b, c, x[4], 11, 0x4BDE_CFA9, 37, x);
    c := HH(c, d, a, b, x[7], 16, 0xF6BB_4B60, 38, x);
    b := HH(b, c, d, a, x[10], 23, 0xBEBF_BC70, 39, x);
    FourOperations(q, x, 36);
    a := HH(a, b, c, d, x[13], 4, 0x289B_7EC6, 40, x);
    d := HH(d, a, b, c, x[0], 11, 0xEAA1_27FA, 41, x);
    c := HH(c, d, a, b, x[3], 16, 0xD4EF_3085, 42, x);
    b := HH(b, c, d, a, x[6], 23, 0x0488_1D05, 43, x);
    FourOperations(q, x, 40);
    a := HH(a, b, c, d, x[9], 4, 0xD9D4_D039, 44, x);
    d := HH(d, a, b, c, x[12], 11, 0xE6DB_99E5, 45, x);
    c := HH(c, d, a, b, x[15], 16, 0x1FA2_7CF8, 46, x);
    b := HH(b, c, d, a, x[2], 23, 0xC4AC_5665, 47, x);
    FourOperations(q, x, 44);
  }

  // Round 4 of MD5Transform, operations 49 to 64.
  method Round4(a0: u32, b0: u32, c0: u32, d0: u32, x: seq<u32>, ghost q: Quad)
    returns (a: u32, b: u32, c: u32, d: u32)
    requires |x| == 16 && Quad(a0, b0, c0, d0) == Operations(q, x, 48)
    ensures Quad(a, b, c, d) == Operations(q, x, 64)
  {
    hide Mixed, Operations, Operation;
    a, b, c, d := a0, b0, c0, d0;
    a := II(a, b, c, d, x[0], 6, 0xF429_2244, 48, x);
    d := II(d, a, b, c, x[7], 10, 0x432A_FF97, 49, x);
    c := II(c, d, a, b, x[14], 15, 0xAB94_23A7, 50, x);
    b := II(b, c, d, a, x[5], 21, 0xFC93_A039, 51, x);
    FourOperations(q, x, 48);
    a := II(a, b, c, d, x[12], 6, 0x655B_59C3, 52, x);
    d := II(d, a, b, c, x[3], 10, 0x8F0C_CC92, 53, x);
    c := II(c, d, a, b, x[10], 15, 0xFFEF_F47D, 54, x);
    b := II(b, c, d, a, x[1], 21, 0x8584_5DD1, 55, x);
    FourOperations(q, x, 52);
    a := II(a, b, c, d, x[8], 6, 0x6FA8_7E4F, 56, x);
    d := II(d, a, b, c, x[15], 10, 0xFE2C_E6E0, 57, x);
    c := II(c, d, a, b, x[6], 15, 0xA301_4314, 58, x);
    b := II(b, c, d, a, x[13], 21, 0x4E08_11A1, 59, x);
    FourOperations(q, x, 56);
    a := II(a, b, c, d, x[4], 6, 0xF753_7E82, 60, x);
    d := II(d, a, b, c, x[11], 10, 0xBD3A_F235, 61, x);
    c := II(c, d, a, b, x[2], 15, 0x2AD7_D2BB, 62, x);
    b := II(b, c, d, a, x[9], 21, 0xEB86_D391, 63, x);
    FourOperations(q, x, 60);
  }

  lemma DecodeStep(bs: seq<Byte>)
    requires |bs| % 4 == 0 && |bs| > 0
    ensures Decode(bs) == [WordOf(bs[0], bs[1], bs[2], bs[3])] + Decode(bs[4..])
  {
  }

  // MD5Decode: len bytes of input from off on into the first len / 4 words of output.
  method MD5Decode(output: array<u32>, input: array<Byte>, off: nat, len: nat)
    requires len % 4 == 0 && off + len <= input.Length && len / 4 <= output.Length
    modifies output
    ensures output[..len / 4] == Decode(input[off..off + len])
    ensures forall k :: len / 4 <= k < output.Length ==> output[k] == old(output[k])
  {
    hide WordOf, Decode;
    ghost var all := input[off..off + len];
    var i, j := 0, 0;
    while j < len
      invariant j == 4 * i && j <= len
      invariant Decode(all) == output[..i] + Decode(all[j..])
      invariant forall k :: len / 4 <= k < output.Length ==> output[k] == old(output[k])
    {
      DecodeStep(all[j..]);
      ghost var done := output[..i];
      var w := WordOf(input[off + j], input[off + j + 1], input[off + j + 2], input[off + j + 3]);
      assert all[j..][4..] == all[j + 4..];
      output[i] := w;
      assert output[..i + 1] == done + [w];
      i := i + 1;
      j := j + 4;
    }
    NothingToDecode(all[j..]);
  }

  lemma NothingToDecode(bs: seq<Byte>)
    requires bs == []
    ensures Decode(bs) == []
  {
  }

  // Four bytes of the encoding loop.
  method PutWord(output: array<Byte>, j: nat, w: u32)
    requires j + 4 <= output.Length
    modifies output
    ensures output[..j + 4] == old(output[..j]) + BytesOf(w)
    ensures forall k :: j + 4 <= k < output.Length ==> output[k] == old(output[k])
  {
    hide LowByte, Shr;
    var w1, w2, w3 := Shr(w, 8), Shr(w, 16), Shr(w, 24);
    output[j] := LowByte(w);
    output[j + 1] := LowByte(w1);
    output[j + 2] := LowByte(w2);
    output[j + 3] := LowByte(w3);
    assert output[..j] == old(output[..j]);
    assert output[j..j + 4] == BytesOf(w);
    assert output[..j + 4] == output[..j] + output[j..j + 4];
  }

  // MD5Encode: the first len / 4 words of input as len bytes of output.
  method MD5Encode(output: array<Byte>, input: array<u32>, len: nat)
    requires len % 4 == 0 && len <= output.Length && len / 4 <= input.Length
    modifies output
    ensures output[..len] == Encode(input[..len / 4])
    ensures forall k :: len <= k < output.Length ==> output[k] == old(output[k])
  {
    hide BytesOf, LowByte, Encode;
    ghost var all := input[..len / 4];
    var i, j := 0, 0;
    while j < len
      invariant j == 4 * i && j <= len
      invariant Encode(all) == output[..j] + Encode(all[i..])
      invariant forall k :: len <= k < output.Length ==> output[k] == old(output[k])
    {
      EncodeStep(all[i..]);
      assert all[i..][1..] == all[i + 1..];
      PutWord(output, j, input[i]);
      i := i + 1;
      j := j + 4;
    }
    NothingToEncode(all[i..]);
  }

  lemma EncodeStep(ws: seq<u32>)
    requires |ws| > 0
    ensures Encode(ws) == BytesOf(ws[0]) + Encode(ws[1..])
  {
  }

  lemma NothingToEncode(ws: seq<u32>)
    requires ws == []
    ensures Encode(ws) == []
  {
  }

  // The four state words.
  ghost function StateOf(state: array<u32>): Quad
    requires state.Length == 4
    reads state
  {
    Quad(state[0], state[1], state[2], state[3])
  }

  // MD5Transform on the 64 bytes of block from off on: the unrolled code computes the
  // table-driven compression.
  method MD5Transform(state: array<u32>, block: array<Byte>, off: nat)
    requires state.Length == 4 && off + 64 <= block.Length
    modifies state
    ensures StateOf(state) == Compress(old(StateOf(state)), block[off..off + 64])
  {
    hide Add, Decode, Operations;
    ghost var q := StateOf(state);
    var a, b, c, d := state[0], state[1], state[2], state[3];
    var words := new u32[64];
    MD5Decode(words, block, off, 64);
    var x := words[..16];
    NoOperations(q, x);
    a, b, c, d := Round1(a, b, c, d, x, q);
    a, b, c, d := Round2(a, b, c, d, x, q);
    a, b, c, d := Round3(a, b, c, d, x, q);
    a, b, c, d := Round4(a, b, c, d, x, q);
    state[0] := Add(state[0], a);
    state[1] := Add(state[1], b);
    state[2] := Add(state[2], c);
    state[3] := Add(state[3], d);
  }
}
