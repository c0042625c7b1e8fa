// Whole splits and merges: what pool_pull_upper and pool_try_shrink keep and what they achieve.
module SplitMerge {
  import opened Sizes
  import opened Tiling
  import opened FreeLists
  import opened ListFacts

  ghost predicate SameBytes(f: Lists, g: Lists) {
    forall x :: FreeByte(f, x) <==> FreeByte(g, x)
  }

  // The sum of free_n * obj_size over the levels below n.
  function TotalBelow(free: Lists, n: nat): nat
    requires n <= BUDY_COUNT
  {
    if n == 0 then 0 else TotalBelow(free, n - 1) + |free[n - 1]| * Size(n - 1)
  }

  function TotalFree(free: Lists): nat {
    TotalBelow(free, BUDY_COUNT)
  }

  lemma {:induction false} TotalUpdate(free: Lists, i: nat, L: seq<nat>, n: nat)
    requires i < BUDY_COUNT && n <= BUDY_COUNT
    ensures TotalBelow(free[i := L], n)
            == TotalBelow(free, n) + if i < n then |L| * Size(i) - |free[i]| * Size(i) else 0
  {
    if n > 0 {
      TotalUpdate(free, i, L, n - 1);
    }
  }

  lemma TotalAddFree(free: Lists, idx: nat, b: nat, n: nat)
    requires idx < BUDY_COUNT
    ensures TotalFree(AddFree(free, idx, b, n)) == TotalFree(free) + n * Size(idx)
  {
    TotalUpdate(free, idx, InsertRun(free[idx], b, n, Size(idx)), BUDY_COUNT);
    assert (|free[idx]| + n) * Size(idx) == |free[idx]| * Size(idx) + n * Size(idx);
  }

  lemma TotalDrop(free: Lists, idx: nat, k: nat, n: nat)
    requires idx < BUDY_COUNT && k + n <= |free[idx]|
    ensures TotalFree(free[idx := DropRun(free[idx], k, n)]) == TotalFree(free) - n * Size(idx)
  {
    TotalUpdate(free, idx, DropRun(free[idx], k, n), BUDY_COUNT);
    assert (|free[idx]| - n) * Size(idx) == |free[idx]| * Size(idx) - n * Size(idx);
  }

  // ---- Split ----

  lemma SplitKeeps(free: Lists, idx: nat, lo: int, hi: int)
    requires idx + 1 < BUDY_COUNT && FreeOk(free, lo, hi) && free[idx + 1] != []
    ensures FreeOk(SplitHead(free, idx), lo, hi)
    ensures SameBytes(SplitHead(free, idx), free)
    ensures TotalFree(SplitHead(free, idx)) == TotalFree(free)
  {
    var a, sz := free[idx + 1][0], Size(idx);
    hide FreeOk, FreePieces, Tiled, Run, InsertRun, HalfAligned, OwnAligned;
    SplitStep(free, idx, lo, hi);
    SingleTiled(a, 2 * sz, false);
    TwoTiled(a, sz);
    forall x
      ensures FreeByte(SplitHead(free, idx), x) <==> FreeByte(free, x)
    {
      ReplaceCovers(FreePieces(free), {Piece(a, 2 * sz, false)},
                    {Piece(a, sz, false), Piece(a + sz, sz, false)}, a, a + 2 * sz, x);
    }
    TotalDrop(free, idx + 1, 0, 1);
    assert DropRun(free[idx + 1], 0, 1) == free[idx + 1][1..];
    TotalAddFree(PopHead(free, idx + 1), idx, a, 2);
  }

  // pool_pull_upper keeps the invariant, every free byte and the free total.
  lemma {:induction false} PullUpperKeeps(free: Lists, idx: nat, lo: int, hi: int)
    requires FreeOk(free, lo, hi)
    ensures FreeOk(PullUpper(free, idx), lo, hi)
    ensures SameBytes(PullUpper(free, idx), free)
    ensures TotalFree(PullUpper(free, idx)) == TotalFree(free)
    decreases BUDY_COUNT - idx
  {
    if idx + 1 < BUDY_COUNT {
      if free[idx + 1] == [] {
        PullUpperKeeps(free, idx + 1, lo, hi);
      }
      var f := if free[idx + 1] == [] then PullUpper(free, idx + 1) else free;
      if f[idx + 1] != [] {
        SplitKeeps(f, idx, lo, hi);
      }
    }
  }

  lemma SplitOntoEmpty(f: Lists, idx: nat)
    requires idx + 1 < BUDY_COUNT && f[idx] == [] && f[idx + 1] != []
    ensures SplitHead(f, idx)
            == f[idx + 1 := f[idx + 1][1..]][idx := [f[idx + 1][0], f[idx + 1][0] + Size(idx)]]
  {
    var a := f[idx + 1][0];
    RunOfTwo(a, Size(idx));
    assert InsertRun([], a, 2, Size(idx)) == Run(a, 2, Size(idx));
  }

  // g is free with the block a of level j cut down to level idx: one upper half is left at every
  // level in between, two adjacent blocks at idx, and nothing else differs.
  ghost predicate CutDown(free: Lists, g: Lists, idx: nat, j: nat, a: nat)
    requires idx < j < BUDY_COUNT && free[j] != []
  {
    && g[j] == free[j][1..]
    && (forall m :: idx < m < j ==> g[m] == [a + Size(m)])
    && g[idx] == [a, a + Size(idx)]
    && (forall m :: 0 <= m < idx || j < m < BUDY_COUNT ==> g[m] == free[m])
  }

  // With j the least non-empty level above the empty level idx, the head block of level j is
  // cut down to two adjacent blocks at idx and one upper half at every level in between.
  lemma {:induction false} PullUpperExact(free: Lists, idx: nat, j: nat)
    requires idx < j < BUDY_COUNT && free[j] != []
    requires forall m :: idx <= m < j ==> free[m] == []
    ensures CutDown(free, PullUpper(free, idx), idx, j, free[j][0])
    decreases j - idx
  {
    hide AddFree, Size;
    var a := free[j][0];
    if idx + 1 < j {
      PullUpperExact(free, idx + 1, j);
      SplitOntoEmpty(PullUpper(free, idx + 1), idx);
      CutFurther(free, PullUpper(free, idx + 1), idx, j, a);
    } else {
      SplitOntoEmpty(free, idx);
    }
  }

  lemma CutFurther(free: Lists, f: Lists, idx: nat, j: nat, a: nat)
    requires idx + 1 < j < BUDY_COUNT && free[j] != [] && CutDown(free, f, idx + 1, j, a)
    ensures CutDown(free, f[idx + 1 := f[idx + 1][1..]][idx := [a, a + Size(idx)]], idx, j, a)
  {
    var g := f[idx + 1 := f[idx + 1][1..]][idx := [a, a + Size(idx)]];
    forall m | idx < m < j
      ensures g[m] == [a + Size(m)]
    {
      assert m > idx + 1 ==> g[m] == f[m];
    }
  }

  // Above an all-empty range there is nothing to split; the lists stay as they were.
  lemma {:induction false} PullUpperNothing(free: Lists, idx: nat)
    requires forall m :: idx < m < BUDY_COUNT ==> free[m] == []
    ensures PullUpper(free, idx) == free
    decreases BUDY_COUNT - idx
  {
    if idx + 1 < BUDY_COUNT {
      PullUpperNothing(free, idx + 1);
    }
  }

  // The pull succeeds exactly when some level from idx up has a block.
  lemma {:induction false} PullUpperSucceeds(free: Lists, idx: nat)
    requires idx < BUDY_COUNT && free[idx] == []
    ensures PullUpper(free, idx)[idx] != [] <==> exists m :: idx < m < BUDY_COUNT && free[m] != []
  {
    if m :| idx < m < BUDY_COUNT && free[m] != [] {
      var j := LeastLevel(free, idx, m);
      PullUpperExact(free, idx, j);
    } else {
      PullUpperNothing(free, idx);
    }
  }

  lemma {:induction false} LeastLevel(free: Lists, idx: nat, m: nat) returns (j: nat)
    requires idx < m < BUDY_COUNT && free[idx] == [] && free[m] != []
    ensures idx < j <= m && free[j] != [] && forall l :: idx <= l < j ==> free[l] == []
  {
    j := idx + 1;
    while free[j] == []
      invariant idx < j <= m
      invariant forall l :: idx <= l < j ==> free[l] == []
      decreases m - j
    {
      j := j + 1;
    }
  }

  // ---- Merge ----

  // No block of the level could be merged with its successor.
  ghost predicate Saturated(L: seq<nat>, idx: nat) {
    forall k :: 0 <= k < |L| ==> !Mergeable(L, idx, k)
  }

  lemma MergeKeeps(free: Lists, idx: nat, k: nat, lo: int, hi: int)
    requires idx + 1 < BUDY_COUNT && FreeOk(free, lo, hi) && Mergeable(free[idx], idx, k)
    ensures FreeOk(MergeAt(free, idx, k), lo, hi)
    ensures SameBytes(MergeAt(free, idx, k), free)
    ensures TotalFree(MergeAt(free, idx, k)) == TotalFree(free)
  {
    var a, sz := free[idx][k], Size(idx);
    hide FreeOk, FreePieces, Tiled, Run, InsertRun, HalfAligned, OwnAligned;
    MergeStep(free, idx, k, lo, hi);
    SingleTiled(a, 2 * sz, false);
    TwoTiled(a, sz);
    forall x
      ensures FreeByte(MergeAt(free, idx, k), x) <==> FreeByte(free, x)
    {
      ReplaceCovers(FreePieces(free), {Piece(a, sz, false), Piece(a + sz, sz, false)},
                    {Piece(a, 2 * sz, false)}, a, a + 2 * sz, x);
    }
    TotalDrop(free, idx, k, 2);
    PairIsRun(free, idx, k);
    TotalAddFree(TakePair(free, idx, k), idx + 1, a, 1);
  }

  lemma Gap(free: Lists, idx: nat, k: nat, lo: int, hi: int)
    requires idx < BUDY_COUNT && FreeOk(free, lo, hi) && k + 1 < |free[idx]|
    ensures free[idx][k] + Size(idx) <= free[idx][k + 1]
  {
    var t, u := Piece(free[idx][k], Size(idx), false), Piece(free[idx][k + 1], Size(idx), false);
    assert t in FreePieces(free) && u in FreePieces(free);
  }

  lemma {:induction false} ShrinkFromKeeps(free: Lists, idx: nat, k: nat, lo: int, hi: int)
    requires idx + 1 < BUDY_COUNT && k <= |free[idx]| && FreeOk(free, lo, hi)
    ensures FreeOk(ShrinkFrom(free, idx, k), lo, hi)
    ensures SameBytes(ShrinkFrom(free, idx, k), free)
    ensures TotalFree(ShrinkFrom(free, idx, k)) == TotalFree(free)
    ensures forall m :: 0 <= m < BUDY_COUNT && m != idx && m != idx + 1
                        ==> ShrinkFrom(free, idx, k)[m] == free[m]
    decreases |free[idx]| - k
  {
    if k == |free[idx]| {
    } else if Mergeable(free[idx], idx, k) {
      MergeKeeps(free, idx, k, lo, hi);
      ShrinkFromKeeps(MergeAt(free, idx, k), idx, k, lo, hi);
    } else {
      ShrinkFromKeeps(free, idx, k + 1, lo, hi);
    }
  }

  // Taking out a pair brings no two blocks next to each other.
  lemma DropPairNotMergeable(L: seq<nat>, idx: nat, k: nat, j: nat)
    requires j < k && Mergeable(L, idx, k) && Ascending(L)
    requires L[k - 1] + Size(idx) <= L[k] && !Mergeable(L, idx, j)
    ensures !Mergeable(DropPair(L, k), idx, j)
  {
    if j == k - 1 && k + 2 < |L| {
      assert L[k] < L[k + 2];
    }
  }

  lemma {:induction false} ShrinkFromSaturates(free: Lists, idx: nat, k: nat, lo: int, hi: int)
    requires idx + 1 < BUDY_COUNT && k <= |free[idx]| && FreeOk(free, lo, hi)
    requires forall j :: 0 <= j < k ==> !Mergeable(free[idx], idx, j)
    ensures Saturated(ShrinkFrom(free, idx, k)[idx], idx)
    decreases |free[idx]| - k
  {
    if k == |free[idx]| {
    } else if Mergeable(free[idx], idx, k) {
      MergeKeeps(free, idx, k, lo, hi);
      forall j | 0 <= j < k
        ensures !Mergeable(MergeAt(free, idx, k)[idx], idx, j)
      {
        Gap(free, idx, k - 1, lo, hi);
        DropPairNotMergeable(free[idx], idx, k, j);
      }
      ShrinkFromSaturates(MergeAt(free, idx, k), idx, k, lo, hi);
    } else {
      ShrinkFromSaturates(free, idx, k + 1, lo, hi);
    }
  }

  // pool_try_shrink keeps the invariant, every free byte, the free total and the levels below.
  lemma {:induction false} ShrinkKeeps(free: Lists, idx: nat, lo: int, hi: int)
    requires FreeOk(free, lo, hi)
    ensures FreeOk(Shrink(free, idx), lo, hi)
    ensures SameBytes(Shrink(free, idx), free)
    ensures TotalFree(Shrink(free, idx)) == TotalFree(free)
    ensures forall m :: 0 <= m < BUDY_COUNT && m < idx ==> Shrink(free, idx)[m] == free[m]
    decreases BUDY_COUNT - idx
  {
    if idx + 1 < BUDY_COUNT {
      ShrinkFromKeeps(free, idx, 0, lo, hi);
      ShrinkKeeps(ShrinkFrom(free, idx, 0), idx + 1, lo, hi);
    }
  }

  // On return no level from idx up to 7 holds an own-size aligned block with an adjacent successor.
  lemma {:induction false} ShrinkSaturates(free: Lists, idx: nat, lo: int, hi: int)
    requires FreeOk(free, lo, hi)
    ensures forall m :: idx <= m && m + 1 < BUDY_COUNT ==> Saturated(Shrink(free, idx)[m], m)
    decreases BUDY_COUNT - idx
  {
    if idx + 1 < BUDY_COUNT {
      ShrinkFromKeeps(free, idx, 0, lo, hi);
      ShrinkFromSaturates(free, idx, 0, lo, hi);
      var f := ShrinkFrom(free, idx, 0);
      ShrinkSaturates(f, idx + 1, lo, hi);
      ShrinkKeeps(f, idx + 1, lo, hi);
    }
  }

  // Saturation over all pairs of blocks, in the words of the address test.
  lemma SaturatedMeaning(free: Lists, idx: nat, lo: int, hi: int, c: nat)
    requires idx < BUDY_COUNT && FreeOk(free, lo, hi) && Saturated(free[idx], idx)
    requires c in free[idx] && c % Size(idx) == 0
    ensures c + Size(idx) !in free[idx]
  {
    AlignedToMeaning(idx, c);
    var L := free[idx];
    var k :| 0 <= k < |L| && L[k] == c;
    assert !Mergeable(L, idx, k);
    forall l | 0 <= l < |L|
      ensures L[l] != c + Size(idx)
    {
      if l > k + 1 {
        Gap(free, idx, k, lo, hi);
      }
    }
  }
}
