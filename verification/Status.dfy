// The status word of simulator/cpu.h: its bits, the flags CMP, ADD and MUL set in it, and what the
// conditional jumps read off it.
module Status {
  import opened Arith
  import opened Bits
  import opened Shifts
  import opened Opcodes

  const N := 0
  const Z := 1
  const V := 3

  // ---- The macros ----

  function SetBit(sw: u32, k: nat): u32
    requires k < 32
  {
    WordBit(k);
    OrWord(sw, Pow2(k))
  }

  function ClearBit(sw: u32, k: nat): u32
    requires k < 32
  {
    WordBit(k);
    And(sw, Not(Pow2(k)))
  }

  predicate GetBit(sw: u32, k: nat) {
    And(sw, Pow2(k)) != 0
  }

  lemma WordBit(k: nat)
    requires k < 32
    ensures Pow2(k) < W32
  {
    Pow32();
    if k < 31 {
      Pow2Add(k, 31 - k);
      MulAtLeast(Pow2(31 - k), Pow2(k));
    }
  }

  lemma SetBitBits(sw: u32, k: nat, j: nat)
    requires k < 32
    ensures BitAt(SetBit(sw, k), j) <==> BitAt(sw, j) || j == k
  {
    WordBit(k);
    OrBit(sw, Pow2(k), j);
    OneBit(k, j);
  }

  lemma ClearBitBits(sw: u32, k: nat, j: nat)
    requires k < 32
    ensures BitAt(ClearBit(sw, k), j) <==> BitAt(sw, j) && j != k
  {
    WordBit(k);
    AndBit(sw, Not(Pow2(k)), j);
    if j < 32 {
      NotBit(Pow2(k), j);
      OneBit(k, j);
    } else {
      Pow32();
      BelowPow2(sw, 32, j);
    }
  }

  lemma {:induction false} GetBitMeaning(sw: u32, k: nat)
    ensures GetBit(sw, k) <==> BitAt(sw, k)
  {
    if k == 0 {
      LowMask(sw, 1);
    } else if sw == 0 {
      ZeroBit(k);
    } else {
      GetBitMeaning(sw / 2, k - 1);
    }
  }

  // ---- Compare ----

  // After OPC_CMP the two low bits say whether the 32-bit difference is negative or zero.
  function CmpFlags(sw: u32, a: u32, b: u32): u32 {
    var t := Signed(Wrap(Signed(a) - Signed(b)));
    4 * (sw / 4) + (if t < 0 then 1 else if t == 0 then 2 else 0)
  }

  lemma LowTwo(sw: u32, v: nat, k: nat)
    requires v < 4
    ensures BitAt(4 * (sw / 4) + v, k) <==> if k < 2 then BitAt(v, k) else BitAt(sw, k)
  {
    var w := 4 * (sw / 4) + v;
    assert w % 2 == v % 2 && w / 2 == 2 * (sw / 4) + v / 2;
    assert w / 2 / 2 == sw / 4 == sw / 2 / 2;
    if k == 1 {
      assert BitAt(w, 1) == BitAt(w / 2, 0) && BitAt(v, 1) == BitAt(v / 2, 0);
    } else if k >= 2 {
      assert BitAt(w, k) == BitAt(w / 2, k - 1) == BitAt(w / 2 / 2, k - 2);
      assert BitAt(sw, k) == BitAt(sw / 2, k - 1) == BitAt(sw / 2 / 2, k - 2);
    }
  }

  // The macro calls of OPC_CMP, pair by pair.
  lemma CmpMacros(sw: u32)
    ensures ClearBit(ClearBit(sw, N), Z) == 4 * (sw / 4)
    ensures SetBit(ClearBit(sw, N), Z) == 4 * (sw / 4) + 2
    ensures ClearBit(SetBit(sw, N), Z) == 4 * (sw / 4) + 1
  {
    hide SetBit, ClearBit;
    var c, s := ClearBit(sw, N), SetBit(sw, N);
    forall k: nat
      ensures BitAt(ClearBit(c, Z), k) <==> BitAt(4 * (sw / 4), k)
      ensures BitAt(SetBit(c, Z), k) <==> BitAt(4 * (sw / 4) + 2, k)
      ensures BitAt(ClearBit(s, Z), k) <==> BitAt(4 * (sw / 4) + 1, k)
    {
      ClearBitBits(sw, N, k);
      SetBitBits(sw, N, k);
      ClearBitBits(c, Z, k);
      SetBitBits(c, Z, k);
      ClearBitBits(s, Z, k);
      LowTwo(sw, 0, k);
      LowTwo(sw, 1, k);
      LowTwo(sw, 2, k);
      if k < 2 {
        SmallBits(k);
      }
    }
    SameBits(ClearBit(c, Z), 4 * (sw / 4));
    SameBits(SetBit(c, Z), 4 * (sw / 4) + 2);
    SameBits(ClearBit(s, Z), 4 * (sw / 4) + 1);
  }

  lemma SmallBits(k: nat)
    requires k < 2
    ensures !BitAt(0, k)
    ensures BitAt(1, k) <==> k == N
    ensures BitAt(2, k) <==> k == Z
  {
  }

  // N and Z of the status word.
  function NZ(sw: u32): (bool, bool) { (BitAt(sw, N), BitAt(sw, Z)) }

  // N and Z are not both set.
  predicate NotBoth(sw: u32) { !(BitAt(sw, N) && BitAt(sw, Z)) }

  // CMP sets N for a negative 32-bit difference and Z for a zero one, and no other bit moves.
  lemma CmpBits(sw: u32, a: u32, b: u32)
    ensures var t := Signed(Wrap(Signed(a) - Signed(b))); NZ(CmpFlags(sw, a, b)) == (t < 0, t == 0)
    ensures forall k :: k >= 2 ==> (BitAt(CmpFlags(sw, a, b), k) <==> BitAt(sw, k))
  {
    var t := Signed(Wrap(Signed(a) - Signed(b)));
    var v := if t < 0 then 1 else if t == 0 then 2 else 0;
    LowTwo(sw, v, N);
    LowTwo(sw, v, Z);
    SmallBits(N);
    SmallBits(Z);
    forall k | k >= 2
      ensures BitAt(CmpFlags(sw, a, b), k) <==> BitAt(sw, k)
    {
      LowTwo(sw, v, k);
    }
  }

  // The conditional jumps JEQ, JNE, JLT, JGT, JLE, JGE.
  predicate Taken(op: nat, sw: u32) {
    var n, z := BitAt(sw, N), BitAt(sw, Z);
    if op == OPC_JEQ then !n && z
    else if op == OPC_JNE then !z
    else if op == OPC_JLT then n && !z
    else if op == OPC_JGT then !n && !z
    else if op == OPC_JLE then n || z
    else op == OPC_JGE && (!n || z)
  }

  // The signed relation a conditional jump names.
  predicate Relation(op: nat, x: int, y: int) {
    if op == OPC_JEQ then x == y
    else if op == OPC_JNE then x != y
    else if op == OPC_JLT then x < y
    else if op == OPC_JGT then x > y
    else if op == OPC_JLE then x <= y
    else x >= y
  }

  predicate Fits32(v: int) { -0x8000_0000 <= v < 0x8000_0000 }

  // The jump op can rely on the flags of a comparison of x and y.
  predicate Reliable(op: nat, x: int, y: int) {
    op == OPC_JEQ || op == OPC_JNE || Fits32(x - y)
  }

  // JEQ and JNE always agree with the compared values; the four order jumps agree exactly when
  // the difference fits in 32 bits.
  lemma JumpAfterCompare(op: nat, sw: u32, a: u32, b: u32)
    requires OPC_JEQ <= op <= OPC_JGE
    ensures (Taken(op, CmpFlags(sw, a, b)) <==> Relation(op, Signed(a), Signed(b)))
            <==> Reliable(op, Signed(a), Signed(b))
  {
    CmpBits(sw, a, b);
    var d := Signed(a) - Signed(b);
    SignedWrap(d);
    WrappedDifference(d);
  }

  lemma WrappedDifference(d: int)
    requires -W32 < d < W32
    ensures Signed(Wrap(d)) == if Fits32(d) then d else if d > 0 then d - W32 else d + W32
  {
  }

  // JLT is taken after comparing the largest int with -1.
  lemma OrderJumpFails(sw: u32)
    ensures var a, b := 0x7FFF_FFFF, 0xFFFF_FFFF;
            Taken(OPC_JLT, CmpFlags(sw, a, b)) && !Relation(OPC_JLT, Signed(a), Signed(b))
  {
    CmpBits(sw, 0x7FFF_FFFF, 0xFFFF_FFFF);
  }

  // ---- Overflow ----

  // Register arithmetic wraps to 32 bits.
  function AddWords(x: int, y: int): u32 { Wrap(x + y) }

  function MulWords(x: int, y: int): u32 { Wrap(x * y) }

  // int to unsigned long long
  function Widen(x: u32): nat {
    if Signed(x) < 0 then W32 * W32 + Signed(x) else x
  }

  // OPC_ADD and OPC_MUL: V is set where the widened result exceeds 0xFFFFFFFF.
  function OverflowFlag(sw: u32, result: u32): u32 {
    if Widen(result) > 0xFFFF_FFFF then SetBit(sw, V) else sw
  }

  lemma OverflowKeepsNZ(sw: u32, result: u32)
    ensures NZ(OverflowFlag(sw, result)) == NZ(sw)
    ensures BitAt(OverflowFlag(sw, result), V) <==> BitAt(sw, V) || Signed(result) < 0
  {
    SetBitBits(sw, V, N);
    SetBitBits(sw, V, Z);
    SetBitBits(sw, V, V);
  }

  // A wrapped result is negative exactly when its quotient by 2^31 is odd.
  lemma NegativeWrap(p: int)
    ensures Signed(Wrap(p)) < 0 <==> p / 0x8000_0000 % 2 == 1
    ensures Fits32(p) <==> p / 0x8000_0000 == 0 || p / 0x8000_0000 == -1
  {
    var q, r := p / 0x8000_0000, p % 0x8000_0000;
    assert p == 0x8000_0000 * q + r;
    var h := q / 2;
    assert q == 2 * h + q % 2;
    assert p == W32 * h + (0x8000_0000 * (q % 2) + r);
    DivModUnique(p, W32, h);
  }

  // Where V, once clear, tells whether the exact result p overflowed 32 bits.
  predicate Tells(p: int) {
    var q := p / 0x8000_0000;
    q == 0 || (q != -1 && q % 2 == 1)
  }

  // V keeps count of overflows exactly when it was set already or the exact result p is not one of
  // those it misjudges: negative in range, or out of range with a wrapped value that is not negative.
  lemma VTells(sw: u32, p: int)
    ensures (BitAt(OverflowFlag(sw, Wrap(p)), V) <==> BitAt(sw, V) || !Fits32(p)) <==> BitAt(sw, V) || Tells(p)
  {
    OverflowKeepsNZ(sw, Wrap(p));
    NegativeWrap(p);
  }

  // For a sum of two registers that is: the sum is not negative.
  lemma SumTells(a: u32, b: u32)
    ensures AddWords(a, b) == Wrap(Signed(a) + Signed(b))
    ensures Tells(Signed(a) + Signed(b)) <==> Signed(a) + Signed(b) >= 0
  {
  }

  lemma ProductWraps(a: u32, b: u32)
    ensures MulWords(a, b) == Wrap(Signed(a) * Signed(b))
  {
    var x, y := Signed(a), Signed(b);
    var i, j := if a < 0x8000_0000 then 0 else 1, if b < 0x8000_0000 then 0 else 1;
    assert a == x + W32 * i && b == y + W32 * j;
    var h := x * j + i * y + W32 * (i * j);
    assert a * b == x * y + W32 * h by {
      assert a * b == x * y + x * (W32 * j) + (W32 * i) * y + (W32 * i) * (W32 * j);
    }
    SameRemainder(x * y, h);
  }

  lemma SameRemainder(v: int, h: int)
    ensures Wrap(v + W32 * h) == Wrap(v)
  {
    DivModUnique(v + W32 * h, W32, v / W32 + h);
  }
}
