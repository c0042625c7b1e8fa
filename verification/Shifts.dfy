// Signed words, and the shifts and rotates of simulator/cpu.c: what they compute and where they move
// each bit.
module Shifts {
  import opened Arith
  import opened Bits

  // Registers are kept as their 32-bit patterns; Signed is their value as the C type int.
  function Signed(x: u32): (v: int)
    ensures -0x8000_0000 <= v < 0x8000_0000
  {
    if x < 0x8000_0000 then x else x - W32
  }

  function Wrap(v: int): u32 { v % W32 }

  lemma SignedWrap(v: int)
    ensures -0x8000_0000 <= v < 0x8000_0000 <==> Signed(Wrap(v)) == v
  {
  }

  lemma ShiftOut(h: nat, l: nat, p: nat, q: nat)
    requires p * q == W32 && l * p < W32
    ensures (h * q + l) * p % W32 == l * p
  {
    assert (h * q + l) * p == W32 * h + l * p by {
      assert (h * q + l) * p == (h * q) * p + l * p;
      assert (h * q) * p == h * (p * q);
    }
    Remainder(h, l * p);
  }

  lemma Remainder(h: nat, r: u32)
    ensures (W32 * h + r) % W32 == r
  {
  }

  // h * q + l for the high n bits h and the low 32 - n bits l of a word.
  lemma RolForm(h: nat, l: nat, n: nat)
    requires 1 <= n <= 31 && h < Pow2(n) && l < Pow2(32 - n)
    ensures h * Pow2(32 - n) + l < W32 && l * Pow2(n) + h < W32
    ensures Rol(h * Pow2(32 - n) + l, n) == l * Pow2(n) + h
  {
    hide Pow2, Or;
    var p, q := Pow2(n), Pow2(32 - n);
    assert p * q == W32 && q * p == W32 by {
      Pow32();
      Pow2Add(n, 32 - n);
    }
    Fits(h, l, p, q);
    Fits(l, h, q, p);
    ShiftOut(h, l, p, q);
    assert h * q == q * h;
    DivModUnique(h * q + l, q, h);
    OrDisjoint(l, h, n);
  }

  lemma Fits(h: nat, l: nat, p: nat, q: nat)
    requires h < p && l < q
    ensures h * q + l < p * q
  {
    assert (h + 1) * q <= p * q by {
      MulMonotone(q, h + 1, p);
      assert q * (h + 1) == (h + 1) * q && q * p == p * q;
    }
    assert (h + 1) * q == h * q + q;
  }

  lemma RorIsRol(x: u32, n: nat)
    requires n <= 32
    ensures Ror(x, n) == Rol(x, 32 - n)
  {
    OrCommutes(Shr(x, n), Shl(x, 32 - n));
  }

  // For amounts 1 to 31 the two rotates undo each other.
  lemma RolRor(x: u32, n: nat)
    requires 1 <= n <= 31
    ensures Ror(Rol(x, n), n) == x
  {
    hide Pow2, Rol, Ror;
    var p, q := Pow2(n), Pow2(32 - n);
    var h := Quotient(x, q);
    var l := x - q * h;
    assert p * q == W32 by {
      Pow32();
      Pow2Add(n, 32 - n);
    }
    assert q * h == h * q && l == x % q;
    HighBelow(x, p, q);
    RolForm(h, l, n);
    RorIsRol(Rol(x, n), n);
    RolForm(l, h, 32 - n);
  }

  lemma HighBelow(x: nat, p: nat, q: nat)
    requires q > 0 && x < p * q
    ensures x / q < p
  {
    var d := x / q;
    assert x == q * d + x % q;
    assert q * p == p * q;
    if d >= p {
      MulMonotone(q, p, d);
    }
  }

  lemma RorRol(x: u32, n: nat)
    requires 1 <= n <= 31
    ensures Rol(Ror(x, n), n) == x
  {
    RorIsRol(x, n);
    RorIsRol(Rol(x, 32 - n), 32 - n);
    RolRor(x, 32 - n);
  }

  // ---- What the shifts do to the bits ----

  lemma {:induction false} QuotientBit(x: nat, n: nat, k: nat)
    ensures BitAt(Quotient(x, Pow2(n)), k) <==> BitAt(x, k + n)
  {
    if n > 0 {
      Halving(x, Pow2(n - 1));
      assert Quotient(x, Pow2(n)) == Quotient(x / 2, Pow2(n - 1));
      QuotientBit(x / 2, n - 1, k);
    }
  }

  lemma {:induction false} ProductBit(x: nat, n: nat, k: nat)
    ensures BitAt(x * Pow2(n), k) <==> k >= n && BitAt(x, k - n)
  {
    if n > 0 {
      var y := x * Pow2(n - 1);
      assert x * Pow2(n) == 2 * y;
      if k > 0 {
        ProductBit(x, n - 1, k - 1);
      }
    }
  }

  lemma {:induction false} RemainderBit(x: nat, w: nat, k: nat)
    ensures BitAt(x % Pow2(w), k) <==> k < w && BitAt(x, k)
  {
    if w == 0 {
      ZeroBit(k);
    } else {
      var p := Pow2(w - 1);
      var r, m := x / 2 % p, x % Pow2(w);
      Halving(x, p);
      assert m == 2 * r + x % 2;
      assert m / 2 == r && m % 2 == x % 2;
      if k > 0 {
        RemainderBit(x / 2, w - 1, k - 1);
      }
    }
  }

  // SHL moves every bit up by n, SHR moves every bit down by n.
  lemma ShiftBits(x: u32, n: nat, k: nat)
    ensures BitAt(Shl(x, n), k) <==> n <= k < 32 && BitAt(x, k - n)
    ensures BitAt(Shr(x, n), k) <==> BitAt(x, k + n)
  {
    Pow32();
    RemainderBit(x * Pow2(n), 32, k);
    ProductBit(x, n, k);
    QuotientBit(x, n, k);
  }

  // ROL moves bit k to bit k + n, around the end of the word.
  lemma RolBits(x: u32, n: nat, k: nat)
    requires 1 <= n <= 31 && k < 32
    ensures BitAt(Rol(x, n), k) <==> BitAt(x, if k >= n then k - n else k + 32 - n)
  {
    ShiftBits(x, n, k);
    ShiftBits(x, 32 - n, k);
    OrBit(Shl(x, n), Shr(x, 32 - n), k);
    Pow32();
    if k >= n {
      BelowPow2(x, 32, k + 32 - n);
    }
  }

  // ---- The sign-filling shift ----

  // int >> n: the bits move down, copies of the sign bit move in.
  function Asr(x: u32, n: nat): u32 {
    if x < 0x8000_0000 then Shr(x, n) else Not(Shr(Not(x), n))
  }

  // OPC_SRA: the sign bit or'd to the shifted register.
  function Sra(x: u32, n: nat): (r: u32) {
    OrWord(And(x, 0x8000_0000), Asr(x, n))
  }

  // Bit k of the shifted word is bit k + n of the register, or its sign past the end.
  lemma AsrBits(x: u32, n: nat, k: nat)
    requires k < 32
    ensures BitAt(Asr(x, n), k) <==> BitAt(x, if k + n < 32 then k + n else 31)
  {
    hide Shr;
    TopBit(x);
    if x < 0x8000_0000 {
      ShiftBits(x, n, k);
      if k + n >= 32 {
        Pow32();
        BelowPow2(x, 32, k + n);
      }
    } else {
      NotBit(Shr(Not(x), n), k);
      ShiftBits(Not(x), n, k);
      if k + n < 32 {
        NotBit(x, k + n);
      } else {
        Pow32();
        BelowPow2(Not(x), 32, k + n);
      }
    }
  }

  // Shifting the complement down and complementing again rounds towards minus infinity.
  lemma AsrIsFloorDivision(x: u32, n: nat)
    ensures Signed(Asr(x, n)) == Signed(x) / Pow2(n)
  {
    hide Pow2;
    var p := Pow2(n);
    if x < 0x8000_0000 {
      assert Shr(x, n) <= x;
    } else {
      var y: nat := Not(x);
      var q := Quotient(y, p);
      assert Signed(x) == -1 - y && q <= y < 0x8000_0000;
      FloorOfComplement(y, p);
      assert Signed(Asr(x, n)) == -1 - q;
    }
  }

  lemma FloorOfComplement(y: nat, p: nat)
    requires p > 0
    ensures (-1 - y) / p == -1 - y / p
  {
    var q, r := y / p, y % p;
    assert y == p * q + r;
    assert -1 - y == p * (-1 - q) + (p - 1 - r) by {
      assert p * (-1 - q) == -(p * q) - p;
    }
    DivModUnique(-1 - y, p, -1 - q);
  }

  // SRA fills with the sign already, so or-ing the sign bit changes nothing.
  lemma SraIsAsr(x: u32, n: nat)
    ensures Sra(x, n) == Asr(x, n)
  {
    hide Asr;
    var y := Asr(x, n);
    Pow32();
    forall k: nat
      ensures BitAt(Sra(x, n), k) <==> BitAt(y, k)
    {
      OrBit(And(x, 0x8000_0000), y, k);
      AndBit(x, 0x8000_0000, k);
      OneBit(31, k);
      AsrBits(x, n, 31);
    }
    SameBits(Sra(x, n), y);
  }

  // SRA is the signed floor division by 2^n.
  lemma SraIsFloorDivision(x: u32, n: nat)
    ensures Signed(Sra(x, n)) == Signed(x) / Pow2(n)
  {
    SraIsAsr(x, n);
    AsrIsFloorDivision(x, n);
  }
}
