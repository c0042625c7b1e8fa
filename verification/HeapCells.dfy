// How the bucket table and the linked free lists lie in memory.
//
// Memory is indexed by byte address and a 32-bit word sits at the address of its first byte.
// A bucket is three words: obj_size, free_n, free_list. A free block's first word links to the
// next free block of its level, 0 ends the list.
module HeapCells {
  import opened Bits
  import opened Sizes
  import opened Tiling
  import opened FreeLists
  import opened ListFacts
  import opened PoolSpec

  type Memory = seq<u32>

  function SizeSlot(bds: nat, i: nat): nat { bds + 12 * i }

  function CountSlot(bds: nat, i: nat): nat { bds + 12 * i + 4 }

  function HeadSlot(bds: nat, i: nat): nat { bds + 12 * i + 8 }

  // The cell that points at entry k of a list: its head slot, or the block before.
  function CellAt(slot: nat, L: seq<nat>, k: nat): nat
    requires k <= |L|
  {
    if k == 0 then slot else L[k - 1]
  }

  function Target(L: seq<nat>, k: nat): nat {
    if k < |L| then L[k] else 0
  }

  // The chain that starts in slot visits exactly the blocks of L, in order, and ends.
  ghost predicate Chain(m: Memory, slot: nat, L: seq<nat>) {
    forall k :: 0 <= k <= |L| ==> CellAt(slot, L, k) < |m| && m[CellAt(slot, L, k)] == Target(L, k)
  }

  ghost predicate Bucket(m: Memory, bds: nat, i: nat, L: seq<nat>) {
    && HeadSlot(bds, i) < |m|
    && m[SizeSlot(bds, i)] == Size(i)
    && m[CountSlot(bds, i)] == |L|
    && Chain(m, HeadSlot(bds, i), L)
  }

  // The table at bds and the chains represent the nine lists.
  ghost predicate Rep(m: Memory, bds: nat, free: Lists) {
    forall i :: 0 <= i < BUDY_COUNT ==> Bucket(m, bds, i, free[i])
  }

  // The address x lies in the bucket table.
  predicate InTable(bds: nat, x: int) {
    bds <= x < bds + TABLE_SIZE
  }

  // a can hold a block: behind the table, aligned, inside memory.
  predicate Site(bds: nat, len: nat, a: nat) {
    bds + TABLE_SIZE <= a && a % 4 == 0 && a + OBJ_MIN <= len
  }

  // The blocks of the lists are all different and lie behind the table.
  ghost predicate Placed(bds: nat, len: nat, free: Lists) {
    && bds > 0 && bds % 4 == 0 && bds + TABLE_SIZE <= len
    && (forall i :: 0 <= i < BUDY_COUNT ==> Ascending(free[i]))
    && (forall i, a :: 0 <= i < BUDY_COUNT && a in free[i] ==> Site(bds, len, a))
    && (forall i, j, a :: 0 <= i < BUDY_COUNT && 0 <= j < BUDY_COUNT && a in free[i] && a in free[j] ==> i == j)
  }

  lemma ListedSite(bds: nat, len: nat, free: Lists, lo: int, hi: int, i: nat, a: nat)
    requires FreeOk(free, lo, hi) && bds + TABLE_SIZE <= lo && hi <= len
    requires i < BUDY_COUNT && a in free[i]
    ensures Site(bds, len, a)
  {
    hide Size, Ascending, AlignedTo;
    assert lo <= a && a + Size(i) <= hi by {
      assert Piece(a, Size(i), false) in FreePieces(free);
    }
    WordAligned(if i == 0 then 0 else i - 1, a);
  }

  lemma WordAligned(i: nat, a: nat)
    requires AlignedTo(i, a)
    ensures a % 4 == 0
  {
    AlignedToLower(0, i, a);
    assert a == 4 * (4 * (a / 16));
  }

  lemma OneLevel(free: Lists, lo: int, hi: int, i: nat, j: nat, a: nat)
    requires FreeOk(free, lo, hi)
    requires i < BUDY_COUNT && a in free[i] && j < BUDY_COUNT && a in free[j]
    ensures i == j
  {
    hide Size, Shaped;
    assert Piece(a, Size(i), false) in FreePieces(free) && Piece(a, Size(j), false) in FreePieces(free);
    if i < j {
      SizeIncreases(i, j);
    } else if j < i {
      SizeIncreases(j, i);
    }
  }

  lemma FreeOkPlaced(bds: nat, len: nat, free: Lists, lo: int, hi: int)
    requires FreeOk(free, lo, hi)
    requires bds > 0 && bds % 4 == 0 && bds + TABLE_SIZE <= lo && lo <= hi <= len
    ensures Placed(bds, len, free)
  {
    hide FreePieces, Packed, Site;
    forall i, a | 0 <= i < BUDY_COUNT && a in free[i]
      ensures Site(bds, len, a)
    {
      ListedSite(bds, len, free, lo, hi, i, a);
    }
    forall i, j, a | 0 <= i < BUDY_COUNT && 0 <= j < BUDY_COUNT && a in free[i] && a in free[j]
      ensures i == j
    {
      OneLevel(free, lo, hi, i, j, a);
    }
  }

  // m and n differ at most where a cell of the chain is not.
  lemma ChainFrame(m: Memory, n: Memory, slot: nat, L: seq<nat>)
    requires Chain(m, slot, L) && |n| == |m|
    requires slot < |m| ==> n[slot] == m[slot]
    requires forall a :: a in L && a < |m| ==> n[a] == m[a]
    ensures Chain(n, slot, L)
  {
    forall k | 0 <= k <= |L|
      ensures n[CellAt(slot, L, k)] == Target(L, k)
    {
      assert m[CellAt(slot, L, k)] == Target(L, k);
      if k > 0 {
        assert L[k - 1] in L;
      }
    }
  }

  lemma BucketFrame(m: Memory, n: Memory, bds: nat, i: nat, L: seq<nat>)
    requires Bucket(m, bds, i, L) && |n| == |m| && i < BUDY_COUNT
    requires n[SizeSlot(bds, i)] == m[SizeSlot(bds, i)] && n[CountSlot(bds, i)] == m[CountSlot(bds, i)]
    requires n[HeadSlot(bds, i)] == m[HeadSlot(bds, i)]
    requires forall a :: a in L && a < |m| ==> n[a] == m[a]
    ensures Bucket(n, bds, i, L)
  {
    ChainFrame(m, n, HeadSlot(bds, i), L);
  }

  // Splicing the linked run R in behind cell k.
  lemma ChainInsert(m: Memory, n: Memory, slot: nat, L: seq<nat>, k: nat, R: seq<nat>)
    requires Chain(m, slot, L) && |n| == |m| && k <= |L| && |R| > 0
    requires slot < |m| && forall j :: 0 <= j < |R| ==> R[j] < |m|
    requires slot !in L && slot !in R && Ascending(L) && Ascending(R)
    requires forall a :: a in R ==> a !in L
    requires forall a :: a in L && a != CellAt(slot, L, k) && a < |m| ==> n[a] == m[a]
    requires k > 0 ==> n[slot] == m[slot]
    requires CellAt(slot, L, k) < |m| && n[CellAt(slot, L, k)] == R[0]
    requires forall j :: 0 <= j < |R| - 1 ==> n[R[j]] == R[j + 1]
    requires n[R[|R| - 1]] == Target(L, k)
    ensures Chain(n, slot, InsertAt(L, k, R))
  {
    var M := InsertAt(L, k, R);
    forall q | 0 <= q <= |M|
      ensures CellAt(slot, M, q) < |n| && n[CellAt(slot, M, q)] == Target(M, q)
    {
      if q <= k {
        assert CellAt(slot, M, q) == CellAt(slot, L, q);
        assert m[CellAt(slot, L, q)] == Target(L, q);
        if 0 < q < k {
          assert L[q - 1] in L && L[q - 1] < L[k - 1];
        }
      } else if q < k + |R| {
        assert CellAt(slot, M, q) == R[q - 1 - k];
      } else if q == k + |R| {
        assert CellAt(slot, M, q) == R[|R| - 1];
      } else {
        assert CellAt(slot, M, q) == L[q - 1 - |R|] == CellAt(slot, L, q - |R|);
        assert L[q - 1 - |R|] in L;
        assert m[CellAt(slot, L, q - |R|)] == Target(L, q - |R|);
        if k > 0 {
          assert L[k - 1] < L[q - 1 - |R|];
        }
      }
    }
  }

  // Unlinking the c entries behind cell k.
  lemma ChainDrop(m: Memory, n: Memory, slot: nat, L: seq<nat>, k: nat, c: nat)
    requires Chain(m, slot, L) && |n| == |m| && k + c <= |L|
    requires slot !in L && Ascending(L)
    requires forall a :: a in L && a != CellAt(slot, L, k) && a < |m| ==> n[a] == m[a]
    requires k > 0 && slot < |m| ==> n[slot] == m[slot]
    requires CellAt(slot, L, k) < |m| && n[CellAt(slot, L, k)] == Target(L, k + c)
    ensures Chain(n, slot, DropRun(L, k, c))
  {
    var M := DropRun(L, k, c);
    forall q | 0 <= q <= |M|
      ensures CellAt(slot, M, q) < |n| && n[CellAt(slot, M, q)] == Target(M, q)
    {
      if q <= k {
        assert CellAt(slot, M, q) == CellAt(slot, L, q);
        assert m[CellAt(slot, L, q)] == Target(L, q);
        if 0 < q < k {
          assert L[q - 1] in L && L[q - 1] < L[k - 1];
        }
      } else {
        assert CellAt(slot, M, q) == L[q - 1 + c] == CellAt(slot, L, q + c);
        assert L[q - 1 + c] in L;
        assert m[CellAt(slot, L, q + c)] == Target(L, q + c);
        if k > 0 {
          assert L[k - 1] < L[q - 1 + c];
        }
      }
    }
  }

  // A list of different addresses below len has at most len entries.
  lemma {:induction false} AscendingBound(L: seq<nat>, len: nat)
    requires Ascending(L) && forall a :: a in L ==> a < len
    ensures |L| <= len
  {
    if L != [] {
      var x := L[|L| - 1];
      assert x in L;
      AscendingBound(L[..|L| - 1], x);
    }
  }

  // The words of bucket idx and of its list that an insertion or a removal behind cell k rewrites.
  predicate Rewritten(bds: nat, idx: nat, L: seq<nat>, k: nat, x: int)
    requires k <= |L|
  {
    x == CountSlot(bds, idx) || x == CellAt(HeadSlot(bds, idx), L, k)
  }

  lemma OtherBucketKept(m: Memory, n: Memory, bds: nat, free: Lists, idx: nat, k: nat, R: seq<nat>, i: nat)
    requires Rep(m, bds, free) && Placed(bds, |m|, free) && |n| == |m|
    requires idx < BUDY_COUNT && k <= |free[idx]| && i < BUDY_COUNT && i != idx
    requires forall a :: a in R ==> bds + TABLE_SIZE <= a && a !in free[i]
    requires forall x :: 0 <= x < |m| && !Rewritten(bds, idx, free[idx], k, x) && x !in R ==> n[x] == m[x]
    ensures Bucket(n, bds, i, free[i])
  {
    assert k > 0 ==> free[idx][k - 1] in free[idx] && Site(bds, |m|, free[idx][k - 1]);
    assert Bucket(m, bds, i, free[i]);
    forall x | SizeSlot(bds, i) <= x <= HeadSlot(bds, i) && (x - bds) % 4 == 0
      ensures !Rewritten(bds, idx, free[idx], k, x) && x !in R
    {
    }
    forall a | a in free[i]
      ensures a < |m| && n[a] == m[a]
    {
      assert Site(bds, |m|, a);
    }
    BucketFrame(m, n, bds, i, free[i]);
  }

  // The words of a bucket and the blocks of its list are different addresses.
  lemma OwnCells(m: Memory, bds: nat, free: Lists, idx: nat, k: nat)
    requires Placed(bds, |m|, free) && idx < BUDY_COUNT && k <= |free[idx]|
    ensures HeadSlot(bds, idx) !in free[idx] && CountSlot(bds, idx) !in free[idx]
    ensures SizeSlot(bds, idx) !in free[idx]
    ensures k > 0 ==> CellAt(HeadSlot(bds, idx), free[idx], k) in free[idx]
  {
    forall a | a in free[idx]
      ensures Site(bds, |m|, a)
    {
    }
  }

  // Bucket idx after its chain took in the run R.
  lemma RepInsert(m: Memory, n: Memory, bds: nat, free: Lists, idx: nat, k: nat, R: seq<nat>)
    requires Rep(m, bds, free) && Placed(bds, |m|, free) && |n| == |m|
    requires idx < BUDY_COUNT && k <= |free[idx]| && |R| > 0 && Ascending(R)
    requires forall a :: a in R ==> Site(bds, |m|, a) && forall i :: 0 <= i < BUDY_COUNT ==> a !in free[i]
    requires forall x :: 0 <= x < |m| && !Rewritten(bds, idx, free[idx], k, x) && x !in R ==> n[x] == m[x]
    requires CountSlot(bds, idx) < |m| && n[CountSlot(bds, idx)] == |free[idx]| + |R|
    requires CellAt(HeadSlot(bds, idx), free[idx], k) < |m|
    requires n[CellAt(HeadSlot(bds, idx), free[idx], k)] == R[0]
    requires forall j :: 0 <= j < |R| ==> R[j] < |m|
    requires forall j :: 0 <= j < |R| - 1 ==> n[R[j]] == R[j + 1]
    requires n[R[|R| - 1]] == Target(free[idx], k)
    ensures Rep(n, bds, free[idx := InsertAt(free[idx], k, R)])
  {
    var L := free[idx];
    assert Bucket(m, bds, idx, L);
    OwnCells(m, bds, free, idx, k);
    forall a | a in L && a != CellAt(HeadSlot(bds, idx), L, k)
      ensures a < |m| && n[a] == m[a]
    {
      assert Site(bds, |m|, a) && a !in R;
    }
    ChainInsert(m, n, HeadSlot(bds, idx), L, k, R);
    var g: Lists := free[idx := InsertAt(L, k, R)];
    forall i | 0 <= i < BUDY_COUNT
      ensures Bucket(n, bds, i, g[i])
    {
      if i != idx {
        OtherBucketKept(m, n, bds, free, idx, k, R, i);
      }
    }
  }

  // The words pool_add_free leaves behind: the run linked up, hung into the chain, and counted.
  lemma SplicedRep(m0: Memory, m1: Memory, m: Memory, bds: nat, free: Lists, idx: nat, k: nat, R: seq<nat>)
    requires Rep(m0, bds, free) && Placed(bds, |m0|, free) && |m1| == |m0| <= W32
    requires idx < BUDY_COUNT && k <= |free[idx]| && |R| > 0 && Ascending(R)
    requires forall a :: a in R ==> Site(bds, |m0|, a) && forall i :: 0 <= i < BUDY_COUNT ==> a !in free[i]
    requires |free[idx]| + |R| < W32
    requires forall x :: 0 <= x < |m0| && x !in R ==> m1[x] == m0[x]
    requires forall j :: 0 <= j < |R| ==> R[j] < |m0|
    requires forall j :: 0 <= j < |R| - 1 ==> m1[R[j]] == R[j + 1]
    requires CellAt(HeadSlot(bds, idx), free[idx], k) < |m0| && CountSlot(bds, idx) < |m0|
    requires Target(free[idx], k) < W32
    requires m == m1[R[|R| - 1] := Target(free[idx], k)]
                    [CellAt(HeadSlot(bds, idx), free[idx], k) := R[0]]
                    [CountSlot(bds, idx) := |free[idx]| + |R|]
    ensures Rep(m, bds, free[idx := InsertAt(free[idx], k, R)])
    ensures forall x :: 0 <= x < |m0| && !InTable(bds, x) && x !in free[idx] && x !in R ==> m[x] == m0[x]
  {
    var cell, last := CellAt(HeadSlot(bds, idx), free[idx], k), R[|R| - 1];
    OwnCells(m0, bds, free, idx, k);
    forall j | 0 <= j < |R|
      ensures R[j] != cell && R[j] != CountSlot(bds, idx)
    {
      assert R[j] in R && Site(bds, |m0|, R[j]);
    }
    assert forall j :: 0 <= j < |R| - 1 ==> R[j] != last;
    RepInsert(m0, m, bds, free, idx, k, R);
  }

  // Bucket idx after c entries behind cell k were unlinked.
  lemma RepDrop(m: Memory, n: Memory, bds: nat, free: Lists, idx: nat, k: nat, c: nat)
    requires Rep(m, bds, free) && Placed(bds, |m|, free) && |n| == |m|
    requires idx < BUDY_COUNT && k + c <= |free[idx]|
    requires forall x :: 0 <= x < |m| && !Rewritten(bds, idx, free[idx], k, x) ==> n[x] == m[x]
    requires CountSlot(bds, idx) < |m| && n[CountSlot(bds, idx)] == |free[idx]| - c
    requires CellAt(HeadSlot(bds, idx), free[idx], k) < |m|
    requires n[CellAt(HeadSlot(bds, idx), free[idx], k)] == Target(free[idx], k + c)
    ensures Rep(n, bds, free[idx := DropRun(free[idx], k, c)])
  {
    var L := free[idx];
    assert Bucket(m, bds, idx, L);
    OwnCells(m, bds, free, idx, k);
    ChainDrop(m, n, HeadSlot(bds, idx), L, k, c);
    var g: Lists := free[idx := DropRun(L, k, c)];
    forall i | 0 <= i < BUDY_COUNT
      ensures Bucket(n, bds, i, g[i])
    {
      if i != idx {
        OtherBucketKept(m, n, bds, free, idx, k, [], i);
      }
    }
  }

  // Writes to bytes that belong to no free block and not to the table leave the lists alone.
  lemma RepFrame(m: Memory, n: Memory, bds: nat, free: Lists)
    requires Rep(m, bds, free) && Placed(bds, |m|, free) && |n| == |m|
    requires forall x :: InTable(bds, x) && x < |m| ==> n[x] == m[x]
    requires forall i, a :: 0 <= i < BUDY_COUNT && a in free[i] && a < |m| ==> n[a] == m[a]
    ensures Rep(n, bds, free)
  {
    forall i | 0 <= i < BUDY_COUNT
      ensures Bucket(n, bds, i, free[i])
    {
      assert Bucket(m, bds, i, free[i]);
      BucketFrame(m, n, bds, i, free[i]);
    }
  }

  // A block of a list is a free byte, and so is everything up to its size.
  lemma BlockIsFree(free: Lists, i: nat, a: nat)
    requires i < BUDY_COUNT && a in free[i]
    ensures forall x :: a <= x < a + Size(i) ==> FreeByte(free, x)
  {
    var t := Piece(a, Size(i), false);
    assert t in FreePieces(free);
    forall x | a <= x < a + Size(i)
      ensures FreeByte(free, x)
    {
      assert Covers(t, x);
    }
  }

  // A lower block in a cleared place is on no list.
  lemma ClearNotListed(f: Lists, x: int, y: int, a: nat)
    requires ClearOf(f, x, y) && x <= a < y
    ensures forall i :: 0 <= i < BUDY_COUNT ==> a !in f[i]
  {
    forall i | 0 <= i < BUDY_COUNT
      ensures a !in f[i]
    {
      var t := Piece(a, Size(i), false);
      assert t in FreePieces(f) ==> t.start + t.size <= x || y <= t.start;
    }
  }

  lemma Countable(bds: nat, len: nat, free: Lists, i: nat)
    requires Placed(bds, len, free) && i < BUDY_COUNT
    ensures |free[i]| < len
  {
    forall a | a in free[i]
      ensures a < len - 1
    {
      assert Site(bds, len, a);
    }
    AscendingBound(free[i], len - 1);
  }

  // The two words in front of the payload of a live block.
  predicate HeaderAt(m: Memory, a: nat, b: Block) {
    a + HEADER_SIZE <= |m| && m[a] == HeaderWord(b.idx, b.count) && m[a + 4] == OBJ_MAGIC
  }

  ghost predicate HeadersIn(m: Memory, live: map<nat, Block>) {
    forall a :: a in live ==> HeaderAt(m, a, live[a])
  }
}
