// The allocator's masks are remainders: what & (m - 1) and & ~(m - 1) compute for a power of two m.
module Masks {
  import opened Arith
  import opened Sizes
  import opened Bits
  import opened Shifts

  lemma {:induction false} HighMask(x: nat, n: nat, w: nat)
    requires n <= w && x < Pow2(w)
    ensures Pow2(n) <= Pow2(w) && And(x, Pow2(w) - Pow2(n)) == ClearLow(x, Pow2(n))
  {
    if n == 0 {
      LowMask(x, w);
      SmallMod(x, Pow2(w));
    } else {
      HighMask(x / 2, n - 1, w - 1);
      var y := Pow2(w) - Pow2(n);
      assert y / 2 == Pow2(w - 1) - Pow2(n - 1) && y % 2 == 0;
      Halving(x, Pow2(n - 1));
    }
  }

  lemma SmallMod(x: nat, p: nat)
    requires x < p
    ensures x % p == x
  {
  }

  // x & ~(m - 1) on 32-bit words.
  lemma ClearLowIsMask(x: u32, n: nat)
    requires n <= 32
    ensures Pow2(n) - 1 < W32 && And(x, Not(Pow2(n) - 1)) == ClearLow(x, Pow2(n))
  {
    Pow32();
    HighMask(x, n, 32);
  }

  lemma {:induction false} SizeIsPow2(i: nat)
    ensures Size(i) == Pow2(i + 4)
  {
    if i > 0 {
      SizeIsPow2(i - 1);
    } else {
      assert Pow2(4) == 16;
    }
  }

  // The alignment test of the merge loop.
  lemma MaskTest(idx: nat, a: nat)
    ensures And(a, Size(idx) - 1) == 0 <==> OwnAligned(idx, a)
  {
    SizeIsPow2(idx);
    LowMask(a, idx + 4);
    AlignedToMeaning(idx, a);
  }

  // The header word holds idx in its low half and count in its high half.
  lemma HeaderBits(idx: nat, count: nat, k: nat)
    requires idx < 0x1_0000 && count < 0x1_0000
    ensures BitAt(HeaderWord(idx, count), k) <==> if k < 16 then BitAt(idx, k) else BitAt(count, k - 16)
  {
    assert Pow2(16) == 0x1_0000 by {
      Pow2Add(8, 8);
      assert Pow2(8) == 0x100;
    }
    hide Pow2, BitAt, Or;
    var h := count * Pow2(16);
    OrDisjoint(count, idx, 16);
    assert HeaderWord(idx, count) == Or(h, idx);
    OrBit(h, idx, k);
    ProductBit(count, 16, k);
    if k >= 16 {
      BelowPow2(idx, 16, k);
    }
  }
}
