// Constants and address arithmetic of the pool allocator (rtlib/libs/mem.h).
module Sizes {
  import opened Arith
  import opened Bits

  const PAGE_SIZE := 4096
  const BUDY_COUNT := 9
  const MEM_ALIGN := 8
  const SHRINK_THD := 16
  const OBJ_MIN := 16
  const OBJ_MAGIC: u32 := 0xA1B2_C3D4
  const HEADER_SIZE := 8
  const TABLE_SIZE := 108 // BUDY_COUNT buckets of three words

  // OBJ_MIN << i
  function Size(i: nat): (s: nat)
    ensures s >= OBJ_MIN
  {
    if i == 0 then OBJ_MIN else 2 * Size(i - 1)
  }

  lemma SizeTable()
    ensures Size(0) == 16 && Size(1) == 32 && Size(2) == 64 && Size(3) == 128 && Size(4) == 256
    ensures Size(5) == 512 && Size(6) == 1024 && Size(7) == 2048 && Size(8) == PAGE_SIZE
  {
  }

  lemma SizeIncreases(i: nat, j: nat)
    requires i < j
    ensures Size(i) < Size(j)
  {
    if i + 1 < j {
      SizeIncreases(i, j - 1);
    }
  }

  // a is a multiple of Size(i), one halving at a time.
  predicate AlignedTo(i: nat, a: nat) {
    if i == 0 then a % OBJ_MIN == 0 else a % 2 == 0 && AlignedTo(i - 1, a / 2)
  }

  // AlignedTo is the mask test a & (Size(i) - 1) == 0.
  lemma {:induction false} AlignedToMeaning(i: nat, a: nat)
    ensures AlignedTo(i, a) <==> a % Size(i) == 0
  {
    if i > 0 {
      AlignedToMeaning(i - 1, a / 2);
      Halving(a, Size(i - 1));
    }
  }

  // The alignment blocks really keep: half of their own size, 16 at the lowest level.
  predicate HalfAligned(i: nat, a: nat) {
    AlignedTo(if i == 0 then 0 else i - 1, a)
  }

  // The own-size mask test of the merge loop.
  predicate OwnAligned(i: nat, a: nat) {
    AlignedTo(i, a)
  }

  lemma {:induction false} AlignedToLower(i: nat, j: nat, a: nat)
    requires i <= j && AlignedTo(j, a)
    ensures AlignedTo(i, a)
  {
    if i < j {
      if i > 0 {
        AlignedToLower(i - 1, j - 1, a / 2);
      } else {
        AlignedToLower(0, j - 1, a / 2);
        assert a == 2 * (a / 2);
      }
    }
  }

  lemma {:induction false} AlignedToPlus(i: nat, j: nat, a: nat)
    requires i <= j && AlignedTo(i, a)
    ensures AlignedTo(i, a + Size(j))
  {
    if i > 0 {
      AlignedToPlus(i - 1, j - 1, a / 2);
      assert (a + Size(j)) / 2 == a / 2 + Size(j - 1);
    } else if j > 0 {
      AlignedToPlus(0, j - 1, a);
      AlignedToPlus(0, j - 1, a + Size(j - 1));
    }
  }

  // Both halves of a half-aligned block are half-aligned one level down.
  lemma SplitAligned(i: nat, a: nat)
    requires HalfAligned(i + 1, a)
    ensures HalfAligned(i, a) && HalfAligned(i, a + Size(i))
  {
    var h := if i == 0 then 0 else i - 1;
    AlignedToLower(h, i, a);
    AlignedToPlus(h, i, a);
  }

  // The own-size test of a merge gives exactly half-size alignment one level up.
  lemma MergeAligned(i: nat, a: nat)
    ensures OwnAligned(i, a) <==> HalfAligned(i + 1, a)
  {
  }

  // x & ~(m - 1) for a power of two m: the low bits cleared.
  function ClearLow(x: nat, m: nat): (r: nat)
    requires m > 0
    ensures r <= x < r + m
  {
    x - x % m
  }

  // (n + m - 1) & ~(m - 1): the rounding idiom of the allocator.
  function RoundUp(n: nat, m: nat): (r: nat)
    requires m > 0
    ensures n <= r < n + m
  {
    ClearLow(n + m - 1, m)
  }

  // It gives the least multiple of m from n on.
  lemma RoundUpLeast(n: nat, m: nat, k: nat)
    requires m > 0
    ensures RoundUp(n, m) % m == 0
    ensures n <= m * k ==> RoundUp(n, m) <= m * k
  {
    var x := n + m - 1;
    var q := x / m;
    assert RoundUp(n, m) == m * q by {
      assert x == m * q + x % m;
    }
    DivModUnique(m * q, m, q);
    if n <= m * k {
      DivAtMost(x, m, k);
      MulMonotone(m, q, k);
    }
  }

  // Between p and 2p the rounding idiom is the identity exactly at p.
  lemma RoundUpFixpoint(n: nat, p: nat)
    requires 0 < p <= n < 2 * p
    ensures RoundUp(n, p) == n <==> n == p
  {
    DivModUnique(n + p - 1, p, if n == p then 1 else 2);
  }

  // ---- The block header: idx in the low half word, count in the high half word, then the magic word ----

  function HeaderWord(idx: nat, count: nat): u32 {
    (idx % 0x1_0000) + 0x1_0000 * (count % 0x1_0000)
  }

  function HeaderIdx(w: u32): (i: nat) {
    w % 0x1_0000
  }

  function HeaderCount(w: u32): (c: nat) {
    w / 0x1_0000
  }

  // The two 16-bit fields read back what was stored exactly when both values fit in 16 bits.
  lemma HeaderRoundTrip(idx: nat, count: nat)
    ensures HeaderIdx(HeaderWord(idx, count)) == idx && HeaderCount(HeaderWord(idx, count)) == count
            <==> idx < 0x1_0000 && count < 0x1_0000
  {
  }

  lemma HeaderReads(idx: nat, count: nat)
    requires idx < 0x1_0000 && count < 0x1_0000
    ensures HeaderIdx(HeaderWord(idx, count)) == idx
    ensures HeaderCount(HeaderWord(idx, count)) == count
  {
    HeaderRoundTrip(idx, count);
  }

  // A run of 65536 pages is recorded as a run of none.
  lemma HeaderTruncates()
    ensures HeaderCount(HeaderWord(8, 0x1_0000)) == 0
  {
  }
}
