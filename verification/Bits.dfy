// Bitwise operators on 32-bit words, bit by bit, and the arithmetic they amount to.
module Bits {
  import opened Arith

  const W32 := 0x1_0000_0000

  type u32 = n: nat | n < W32

  function Pow2(k: nat): (p: nat)
    ensures p > 0
  {
    if k == 0 then 1 else 2 * Pow2(k - 1)
  }

  predicate BitAt(x: nat, k: nat) {
    if k == 0 then x % 2 == 1 else BitAt(x / 2, k - 1)
  }

  function And(x: nat, y: nat): (r: nat)
    ensures r <= x && r <= y
  {
    if x == 0 || y == 0 then 0
    else 2 * And(x / 2, y / 2) + (if x % 2 == 1 && y % 2 == 1 then 1 else 0)
  }

  function Or(x: nat, y: nat): (r: nat)
    ensures r <= x + y
  {
    if x == 0 then y else if y == 0 then x
    else 2 * Or(x / 2, y / 2) + (if x % 2 == 1 || y % 2 == 1 then 1 else 0)
  }

  function Xor(x: nat, y: nat): (r: nat)
    ensures r <= x + y
  {
    if x == 0 then y else if y == 0 then x
    else 2 * Xor(x / 2, y / 2) + (if x % 2 != y % 2 then 1 else 0)
  }

  // The one's complement of a word.
  function Not(x: u32): u32 { W32 - 1 - x }

  lemma {:induction false} ZeroBit(k: nat)
    ensures !BitAt(0, k)
  {
    if k > 0 {
      ZeroBit(k - 1);
    }
  }

  lemma {:induction false} AndBit(x: nat, y: nat, k: nat)
    ensures BitAt(And(x, y), k) <==> BitAt(x, k) && BitAt(y, k)
  {
    if x == 0 || y == 0 {
      ZeroBit(k);
    } else if k > 0 {
      AndBit(x / 2, y / 2, k - 1);
    }
  }

  lemma {:induction false} OrBit(x: nat, y: nat, k: nat)
    ensures BitAt(Or(x, y), k) <==> BitAt(x, k) || BitAt(y, k)
  {
    if x == 0 || y == 0 {
      ZeroBit(k);
    } else if k > 0 {
      OrBit(x / 2, y / 2, k - 1);
    }
  }

  lemma {:induction false} XorBit(x: nat, y: nat, k: nat)
    ensures BitAt(Xor(x, y), k) <==> BitAt(x, k) != BitAt(y, k)
  {
    if x == 0 || y == 0 {
      ZeroBit(k);
    } else if k > 0 {
      XorBit(x / 2, y / 2, k - 1);
    }
  }

  // Bit k of (2^n - 1) - x, for x below 2^n.
  lemma {:induction false} ComplementBit(x: nat, n: nat, k: nat)
    requires x < Pow2(n) && k < n
    ensures BitAt(Pow2(n) - 1 - x, k) <==> !BitAt(x, k)
  {
    var y := Pow2(n) - 1 - x;
    assert Pow2(n) == 2 * Pow2(n - 1);
    if k > 0 {
      assert y / 2 == Pow2(n - 1) - 1 - x / 2;
      ComplementBit(x / 2, n - 1, k - 1);
    }
  }

  lemma Pow32()
    ensures Pow2(31) == 0x8000_0000 && Pow2(32) == W32
  {
    assert Pow2(8) == 0x100;
    assert Pow2(16) == 0x1_0000 by { Pow2Add(8, 8); }
    assert Pow2(32) == W32 by { Pow2Add(16, 16); }
    assert Pow2(32) == 2 * Pow2(31);
  }

  lemma {:induction false} Pow2Add(i: nat, j: nat)
    ensures Pow2(i + j) == Pow2(i) * Pow2(j)
  {
    if i > 0 {
      Pow2Add(i - 1, j);
      Doubling(Pow2(i - 1), Pow2(j));
    }
  }

  lemma NotBit(x: u32, k: nat)
    requires k < 32
    ensures BitAt(Not(x), k) <==> !BitAt(x, k)
  {
    Pow32();
    ComplementBit(x, 32, k);
  }

  lemma {:induction false} OneBit(j: nat, k: nat)
    ensures BitAt(Pow2(j), k) <==> j == k
  {
    if j == 0 {
      if k > 0 {
        ZeroBit(k - 1);
      }
    } else if k > 0 {
      OneBit(j - 1, k - 1);
    }
  }

  lemma {:induction false} BelowPow2(x: nat, n: nat, k: nat)
    requires x < Pow2(n) && n <= k
    ensures !BitAt(x, k)
  {
    if n == 0 {
      ZeroBit(k);
    } else {
      BelowPow2(x / 2, n - 1, k - 1);
    }
  }

  // Or of words is a word.
  lemma {:induction false} OrBelow(x: nat, y: nat, n: nat)
    requires x < Pow2(n) && y < Pow2(n)
    ensures Or(x, y) < Pow2(n)
  {
    if x > 0 && y > 0 {
      OrBelow(x / 2, y / 2, n - 1);
    }
  }

  lemma {:induction false} XorBelow(x: nat, y: nat, n: nat)
    requires x < Pow2(n) && y < Pow2(n)
    ensures Xor(x, y) < Pow2(n)
  {
    if x > 0 && y > 0 {
      XorBelow(x / 2, y / 2, n - 1);
    }
  }

  // Two numbers with the same bits are the same.
  lemma {:induction false} SameBits(x: nat, y: nat)
    requires forall k: nat :: BitAt(x, k) <==> BitAt(y, k)
    ensures x == y
    decreases x + y
  {
    assert BitAt(x, 0) <==> BitAt(y, 0);
    if x + y > 0 {
      forall k: nat
        ensures BitAt(x / 2, k) <==> BitAt(y / 2, k)
      {
        assert BitAt(x, k + 1) <==> BitAt(y, k + 1);
      }
      SameBits(x / 2, y / 2);
    }
  }

  // Or of a multiple of 2^n and a number below 2^n is their sum.
  lemma {:induction false} OrDisjoint(h: nat, l: nat, n: nat)
    requires l < Pow2(n)
    ensures Or(h * Pow2(n), l) == h * Pow2(n) + l
  {
    if n > 0 && h > 0 && l > 0 {
      var x := h * Pow2(n);
      assert x == 2 * (h * Pow2(n - 1));
      assert x > 0;
      OrDisjoint(h, l / 2, n - 1);
    }
  }

  // The top bit of a word is its sign.
  lemma TopBit(x: u32)
    ensures BitAt(x, 31) <==> x >= 0x8000_0000
  {
    Pow32();
    if x < 0x8000_0000 {
      BelowPow2(x, 31, 31);
    } else {
      NotBit(x, 31);
      BelowPow2(Not(x), 31, 31);
    }
  }

  // ---- Shifts and rotates ----

  function Shl(x: u32, n: nat): u32 { x * Pow2(n) % W32 }

  function Shr(x: u32, n: nat): (r: u32) { Quotient(x, Pow2(n)) }

  function OrWord(x: u32, y: u32): u32 {
    Pow32();
    OrBelow(x, y, 32);
    Or(x, y)
  }

  function XorWord(x: u32, y: u32): u32 {
    Pow32();
    XorBelow(x, y, 32);
    Xor(x, y)
  }

  // ROL32 and ROR32
  function Rol(x: u32, n: nat): u32
    requires n <= 32
  {
    OrWord(Shl(x, n), Shr(x, 32 - n))
  }

  function Ror(x: u32, n: nat): u32
    requires n <= 32
  {
    OrWord(Shr(x, n), Shl(x, 32 - n))
  }

  lemma {:induction false} OrCommutes(x: nat, y: nat)
    ensures Or(x, y) == Or(y, x)
  {
    if x > 0 && y > 0 {
      OrCommutes(x / 2, y / 2);
    }
  }

  // x & (2^n - 1)
  lemma {:induction false} LowMask(x: nat, n: nat)
    ensures And(x, Pow2(n) - 1) == x % Pow2(n)
  {
    if n > 0 {
      var y := Pow2(n) - 1;
      assert y / 2 == Pow2(n - 1) - 1 && y % 2 == 1;
      LowMask(x / 2, n - 1);
      Halving(x, Pow2(n - 1));
    }
  }
}
