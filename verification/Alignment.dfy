// When blocks stay aligned to their own size: exactly what the own-size test of the merge loop
// (rtlib/libs/mem.c:119) does and does not keep.
module Alignment {
  import opened Sizes
  import opened FreeLists
  import opened ListFacts
  import opened SplitMerge
  import opened PoolSpec
  import opened PoolFacts
  import opened PoolResults

  // Natural buddy alignment: every free block of level i is aligned to Size(i).
  ghost predicate Natural(free: Lists) {
    forall i, a :: 0 <= i < BUDY_COUNT && a in free[i] ==> OwnAligned(i, a)
  }

  predicate Adjacent(L: seq<nat>, i: nat, k: nat) {
    k + 1 < |L| && L[k + 1] == L[k] + Size(i)
  }

  // A maximal run of at least two adjacent blocks starts at entry k.
  predicate RunStart(L: seq<nat>, i: nat, k: nat) {
    Adjacent(L, i, k) && (k > 0 ==> !Adjacent(L, i, k - 1))
  }

  // Every maximal run of at least two adjacent blocks starts at a multiple of twice the block size.
  ghost predicate RunsEven(L: seq<nat>, i: nat) {
    forall k: nat :: RunStart(L, i, k) ==> OwnAligned(i + 1, L[k])
  }

  // ---- One merge ----

  lemma MergedMembers(free: Lists, idx: nat, k: nat)
    requires idx + 1 < BUDY_COUNT && k + 1 < |free[idx]|
    ensures var f, u := MergeAt(free, idx, k), idx + 1;
            && (forall x :: x in f[u] <==> x in free[u] || x == free[idx][k])
            && f[idx] == DropPair(free[idx], k)
            && forall i :: 0 <= i < BUDY_COUNT && i != idx && i != idx + 1 ==> f[i] == free[i]
  {
    var a := free[idx][k];
    RunOfTwo(a, Size(idx + 1));
    InsertRunMembers(free[idx + 1], a, 1, Size(idx + 1));
  }

  // A merge keeps natural alignment exactly when the merged block is aligned to its new size.
  lemma MergeNatural(free: Lists, idx: nat, k: nat)
    requires idx + 1 < BUDY_COUNT && Natural(free) && Mergeable(free[idx], idx, k)
    ensures Natural(MergeAt(free, idx, k)) <==> OwnAligned(idx + 1, free[idx][k])
  {
    hide AlignedTo, AddFree, TakePair;
    var f := MergeAt(free, idx, k);
    MergedMembers(free, idx, k);
    assert free[idx][k] in f[idx + 1];
    forall i, a | 0 <= i < BUDY_COUNT && a in f[i] && (i != idx + 1 || a != free[idx][k])
      ensures OwnAligned(i, a)
    {
      assert a in free[i];
    }
  }

  // ---- The scan of one level ----

  lemma {:induction false} ShrinkFromKeepsUpper(free: Lists, idx: nat, k: nat, a: nat)
    requires idx + 1 < BUDY_COUNT && k <= |free[idx]| && a in free[idx + 1]
    ensures a in ShrinkFrom(free, idx, k)[idx + 1]
    decreases |free[idx]| - k
  {
    hide MergeAt, Mergeable;
    if k == |free[idx]| {
    } else if Mergeable(free[idx], idx, k) {
      PairThere(free[idx], idx, k);
      MergedMembers(free, idx, k);
      ShrinkFromKeepsUpper(MergeAt(free, idx, k), idx, k, a);
    } else {
      ShrinkFromKeepsUpper(free, idx, k + 1, a);
    }
  }

  lemma PairThere(L: seq<nat>, idx: nat, k: nat)
    requires Mergeable(L, idx, k)
    ensures k + 1 < |L| && Adjacent(L, idx, k) && OwnAligned(idx, L[k]) && OwnAligned(idx, L[k + 1])
    ensures |DropPair(L, k)| == |L| - 2
  {
    AlignedToPlus(idx, idx, L[k]);
  }

  // Taking the first pair off a run that starts evenly leaves all runs as even as they were.
  lemma DropPairRuns(L: seq<nat>, idx: nat, k: nat)
    requires k + 1 < |L| && Adjacent(L, idx, k)
    requires Ascending(L) && forall j :: 0 <= j < k ==> !Adjacent(L, idx, j)
    requires k > 0 ==> L[k - 1] + Size(idx) <= L[k]
    requires OwnAligned(idx + 1, L[k])
    ensures forall j :: 0 <= j < k ==> !Adjacent(DropPair(L, k), idx, j)
    ensures RunsEven(DropPair(L, k), idx) <==> RunsEven(L, idx)
  {
    hide AlignedTo, Size, Adjacent;
    var M := DropPair(L, k);
    AdjacentShift(L, idx, k);
    assert forall j :: j > k ==> (RunStart(M, idx, j) <==> RunStart(L, idx, j + 2));
    assert RunStart(L, idx, k + 2) ==> RunStart(M, idx, k);
    if RunStart(M, idx, k) && !RunStart(L, idx, k + 2) {
      assert Adjacent(L, idx, k + 1);
      NextButOne(L, idx, k);
    }
    RunsEvenSame(L, M, idx, k);
  }

  lemma AdjacentShift(L: seq<nat>, idx: nat, k: nat)
    requires Adjacent(L, idx, k) && Ascending(L) && forall j :: 0 <= j < k ==> !Adjacent(L, idx, j)
    requires k > 0 ==> L[k - 1] + Size(idx) <= L[k]
    ensures forall j :: 0 <= j < k ==> !Adjacent(DropPair(L, k), idx, j)
    ensures forall j :: k <= j ==> (Adjacent(DropPair(L, k), idx, j) <==> Adjacent(L, idx, j + 2))
  {
    hide Size;
    var M := DropPair(L, k);
    assert forall j :: k <= j < |M| ==> M[j] == L[j + 2];
    forall j | 0 <= j < k
      ensures !Adjacent(M, idx, j)
    {
      assert !Adjacent(L, idx, j);
      if j == k - 1 && k < |M| {
        assert L[k] < L[k + 2];
      }
    }
  }

  lemma NextButOne(L: seq<nat>, idx: nat, k: nat)
    requires Adjacent(L, idx, k) && Adjacent(L, idx, k + 1) && OwnAligned(idx + 1, L[k])
    ensures k < |DropPair(L, k)| && OwnAligned(idx + 1, DropPair(L, k)[k])
  {
    EvenNext(idx, L[k]);
  }

  lemma EvenNext(idx: nat, a: nat)
    requires OwnAligned(idx + 1, a)
    ensures OwnAligned(idx + 1, a + Size(idx) + Size(idx))
  {
    AlignedToPlus(idx + 1, idx + 1, a);
  }

  // Two lists whose runs start at the same addresses from entry k on, apart from even ones.
  lemma RunsEvenSame(L: seq<nat>, M: seq<nat>, idx: nat, k: nat)
    requires k + 1 < |L| && M == DropPair(L, k)
    requires forall j :: 0 <= j < k ==> !Adjacent(L, idx, j) && !Adjacent(M, idx, j)
    requires Adjacent(L, idx, k) && OwnAligned(idx + 1, L[k])
    requires forall j :: j > k ==> (RunStart(M, idx, j) <==> RunStart(L, idx, j + 2))
    requires RunStart(M, idx, k) && !RunStart(L, idx, k + 2) ==> OwnAligned(idx + 1, M[k])
    requires RunStart(L, idx, k + 2) ==> RunStart(M, idx, k)
    ensures RunsEven(M, idx) <==> RunsEven(L, idx)
  {
    hide AlignedTo, Size, OwnAligned;
    assert forall j :: k <= j < |M| ==> M[j] == L[j + 2];
    if RunsEven(M, idx) {
      forall j: nat | RunStart(L, idx, j)
        ensures OwnAligned(idx + 1, L[j])
      {
        if j > k {
          assert j >= k + 2;
          assert RunStart(M, idx, j - 2);
        }
      }
    }
    if RunsEven(L, idx) {
      forall j: nat | RunStart(M, idx, j)
        ensures OwnAligned(idx + 1, M[j])
      {
        if j > k || RunStart(L, idx, k + 2) {
          assert RunStart(L, idx, j + 2);
        }
      }
    }
  }

  // The scan of a level keeps natural alignment exactly when all runs of the level start evenly.
  lemma {:induction false} ScanNatural(free: Lists, idx: nat, k: nat, lo: int, hi: int)
    requires idx + 1 < BUDY_COUNT && k <= |free[idx]| && FreeOk(free, lo, hi) && Natural(free)
    requires forall j :: 0 <= j < k ==> !Adjacent(free[idx], idx, j)
    ensures Natural(ShrinkFrom(free, idx, k)) <==> RunsEven(free[idx], idx)
    decreases |free[idx]| - k
  {
    hide FreeOk, AlignedTo, MergeAt, Adjacent, Natural, Size;
    var L := free[idx];
    if k == |L| {
      NoRuns(L, idx);
    } else if Mergeable(L, idx, k) {
      PairThere(L, idx, k);
      MergeKeeps(free, idx, k, lo, hi);
      MergeNatural(free, idx, k);
      MergedMembers(free, idx, k);
      if OwnAligned(idx + 1, L[k]) {
        LevelGaps(free, idx, k, lo, hi);
        DropPairRuns(L, idx, k);
        ScanNatural(MergeAt(free, idx, k), idx, k, lo, hi);
      } else {
        assert RunStart(L, idx, k);
        ShrinkFromKeepsUpper(MergeAt(free, idx, k), idx, k, L[k]);
        NotNatural(ShrinkFrom(free, idx, k), idx + 1, L[k]);
      }
    } else {
      NotAdjacent(free, idx, k);
      ScanNatural(free, idx, k + 1, lo, hi);
    }
  }

  lemma LevelGaps(free: Lists, idx: nat, k: nat, lo: int, hi: int)
    requires idx < BUDY_COUNT && FreeOk(free, lo, hi) && k < |free[idx]|
    ensures Ascending(free[idx])
    ensures k > 0 ==> free[idx][k - 1] + Size(idx) <= free[idx][k]
  {
    if k > 0 {
      Gap(free, idx, k - 1, lo, hi);
    }
  }

  lemma NotNatural(free: Lists, i: nat, a: nat)
    requires i < BUDY_COUNT && a in free[i] && !OwnAligned(i, a)
    ensures !Natural(free)
  {
  }

  lemma NotAdjacent(free: Lists, idx: nat, k: nat)
    requires idx < BUDY_COUNT && k < |free[idx]| && Natural(free) && !Mergeable(free[idx], idx, k)
    ensures !Adjacent(free[idx], idx, k)
  {
    assert free[idx][k] in free[idx];
  }

  lemma NoRuns(L: seq<nat>, idx: nat)
    requires forall j :: 0 <= j < |L| ==> !Adjacent(L, idx, j)
    ensures RunsEven(L, idx)
  {
  }

  // ---- The cascade ----

  // On every level from idx up to 7, as the cascade finds it, all runs start evenly.
  ghost predicate CascadeEven(free: Lists, idx: nat)
    decreases BUDY_COUNT - idx
  {
    idx + 1 < BUDY_COUNT ==> RunsEven(free[idx], idx) && CascadeEven(ShrinkFrom(free, idx, 0), idx + 1)
  }

  // A block off its own alignment is never merged: it stays for good.
  lemma {:induction false} OddStaysInScan(free: Lists, idx: nat, k: nat, i: nat, a: nat)
    requires idx + 1 < BUDY_COUNT && k <= |free[idx]|
    requires i < BUDY_COUNT && a in free[i] && !OwnAligned(i, a)
    ensures a in ShrinkFrom(free, idx, k)[i]
    decreases |free[idx]| - k
  {
    hide MergeAt, Mergeable, AlignedTo;
    if k == |free[idx]| {
    } else if Mergeable(free[idx], idx, k) {
      PairThere(free[idx], idx, k);
      MergedMembers(free, idx, k);
      if i == idx {
        assert free[idx] == free[idx][..k] + [free[idx][k], free[idx][k + 1]] + free[idx][k + 2..];
      }
      OddStaysInScan(MergeAt(free, idx, k), idx, k, i, a);
    } else {
      OddStaysInScan(free, idx, k + 1, i, a);
    }
  }

  lemma {:induction false} OddStays(free: Lists, idx: nat, i: nat, a: nat)
    requires i < BUDY_COUNT && a in free[i] && !OwnAligned(i, a)
    ensures a in Shrink(free, idx)[i]
    decreases BUDY_COUNT - idx
  {
    if idx + 1 < BUDY_COUNT {
      OddStaysInScan(free, idx, 0, i, a);
      OddStays(ShrinkFrom(free, idx, 0), idx + 1, i, a);
    }
  }

  // pool_try_shrink keeps natural alignment exactly when it finds only even runs.
  lemma {:induction false} ShrinkNatural(free: Lists, idx: nat, lo: int, hi: int)
    requires FreeOk(free, lo, hi) && Natural(free)
    ensures Natural(Shrink(free, idx)) <==> CascadeEven(free, idx)
    decreases BUDY_COUNT - idx
  {
    hide FreeOk, AlignedTo;
    if idx + 1 < BUDY_COUNT {
      var f := ShrinkFrom(free, idx, 0);
      ScanNatural(free, idx, 0, lo, hi);
      ShrinkFromKeeps(free, idx, 0, lo, hi);
      if Natural(f) {
        ShrinkNatural(f, idx + 1, lo, hi);
      } else {
        var i, a :| 0 <= i < BUDY_COUNT && a in f[i] && !OwnAligned(i, a);
        OddStays(f, idx + 1, i, a);
      }
    }
  }

  // ---- Calls ----

  // All blocks, free and live, are aligned to the size of their level.
  ghost predicate NaturalPool(s: State) {
    Natural(s.free) && forall a :: a in s.live ==> OwnAligned(s.live[a].idx, a)
  }

  lemma SplitNatural(free: Lists, idx: nat)
    requires idx + 1 < BUDY_COUNT && free[idx + 1] != [] && Natural(free)
    ensures Natural(SplitHead(free, idx))
  {
    var a, f := free[idx + 1][0], SplitHead(free, idx);
    assert a in free[idx + 1];
    AlignedToLower(idx, idx + 1, a);
    AlignedToPlus(idx, idx, a);
    RunOfTwo(a, Size(idx));
    hide AlignedTo, Run, InsertRun;
    InsertRunMembers(free[idx], a, 2, Size(idx));
    forall i, x | 0 <= i < BUDY_COUNT && x in f[i]
      ensures OwnAligned(i, x)
    {
      if i == idx {
        assert x in free[idx] || x in [a, a + Size(idx)];
      } else {
        assert x in free[i];
      }
    }
  }

  lemma {:induction false} PullUpperNatural(free: Lists, idx: nat)
    requires Natural(free)
    ensures Natural(PullUpper(free, idx))
    decreases BUDY_COUNT - idx
  {
    hide Natural, SplitHead;
    if idx + 1 < BUDY_COUNT {
      if free[idx + 1] == [] {
        PullUpperNatural(free, idx + 1);
      }
      var f := if free[idx + 1] == [] then PullUpper(free, idx + 1) else free;
      if f[idx + 1] != [] {
        SplitNatural(f, idx);
      }
    }
  }

  // pool_malloc keeps natural alignment.
  lemma MallocNatural(s: State, size: nat)
    requires NaturalPool(s)
    ensures NaturalPool(Malloc(s, size).0)
  {
    hide AlignedTo, PullUpper, Needed, PagesFor;
    if size > 0 && Needed(size) > PAGE_SIZE {
      var L := s.free[BUDY_COUNT - 1];
      var r := FirstRun(L, PagesFor(size), PAGE_SIZE, 0);
      if r.Some? {
        assert L[r.value] in L;
      }
    } else if size > 0 {
      var idx := LevelFor(Needed(size));
      PullUpperNatural(s.free, idx);
      var f := Refill(s.free, idx);
      assert Natural(f);
      if f[idx] != [] {
        assert f[idx][0] in f[idx];
      }
    }
  }

  // The merges a free of the block at a sets off, if any, find only even runs.
  ghost predicate FreesEvenly(s: State, a: nat)
    requires a in s.live
  {
    var b := s.live[a];
    var f := AddFree(s.free, b.idx, a, b.count);
    b.idx < BUDY_COUNT && |f[b.idx]| > SHRINK_THD ==> CascadeEven(f, b.idx)
  }

  lemma {:induction false} RunNatural(idx: nat, a: nat, n: nat)
    requires OwnAligned(idx, a)
    ensures OwnAligned(idx, a + n * Size(idx))
    ensures forall x :: x in Run(a, n, Size(idx)) ==> OwnAligned(idx, x)
  {
    if n > 0 {
      RunNatural(idx, a, n - 1);
      RunSnoc(a, n - 1, Size(idx));
      AlignedToPlus(idx, idx, a + (n - 1) * Size(idx));
    }
  }

  lemma TakeBackNatural(s: State, a: nat)
    requires Inv(s) && NaturalPool(s) && a in s.live
    ensures var b := s.live[a]; Natural(AddFree(s.free, b.idx, a, b.count))
  {
    hide AlignedTo, Run, InsertRun;
    var b := s.live[a];
    RunNatural(b.idx, a, b.count);
    InsertRunMembers(s.free[b.idx], a, b.count, Size(b.idx));
  }

  // pool_free keeps natural alignment exactly when the merges it sets off find only even runs.
  lemma FreeNatural(s: State, a: nat)
    requires Inv(s) && NaturalPool(s) && a in s.live
    ensures NaturalPool(Free(s, a)) <==> FreesEvenly(s, a)
  {
    hide AlignedTo, AddFree;
    var b := s.live[a];
    var f := AddFree(s.free, b.idx, a, b.count);
    TakeBackNatural(s, a);
    TakeBackInv(s, a);
    InvFreeOk(s.(free := f, live := s.live - {a}));
    ShrinkNatural(f, b.idx, s.lo, s.hi);
  }

  // Every free of the history meets only even runs.
  ghost predicate EvenHistory(s: State, ops: seq<Op>)
    requires AllAllowed(s, ops)
    decreases |ops|
  {
    ops == [] || ((ops[0].OpFree? ==> FreesEvenly(s, ops[0].header)) && EvenHistory(PoolResults.Step(s, ops[0]), ops[1..]))
  }

  // Natural alignment holds in every state of the history.
  ghost predicate NaturalThroughout(s: State, ops: seq<Op>)
    requires AllAllowed(s, ops)
    decreases |ops|
  {
    NaturalPool(s) && (ops == [] || NaturalThroughout(PoolResults.Step(s, ops[0]), ops[1..]))
  }

  // A pool stays naturally aligned through a history exactly when every free meets only even runs.
  lemma {:induction false} NaturalOverHistories(s: State, ops: seq<Op>)
    requires Inv(s) && NaturalPool(s) && AllAllowed(s, ops)
    ensures NaturalThroughout(s, ops) <==> EvenHistory(s, ops)
    decreases |ops|
  {
    hide Inv, NaturalPool, FreesEvenly, PoolSpec.Malloc, PoolSpec.Free;
    if ops != [] {
      match ops[0] {
        case OpMalloc(size) =>
          MallocInv(s, size);
          MallocNatural(s, size);
        case OpFree(a) =>
          FreeInv(s, a);
          FreeNatural(s, a);
        case OpWrite(_, _, _) =>
      }
      var t := PoolResults.Step(s, ops[0]);
      if NaturalPool(t) {
        NaturalOverHistories(t, ops[1..]);
      }
    }
  }

  // A new pool is naturally aligned.
  lemma CreateNatural(addr: nat, size: nat)
    requires FirstPage(addr) + PAGE_SIZE < addr + size
    ensures NaturalPool(PoolSpec.Create(addr, size))
  {
    SizeTable();
    AlignedToMeaning(8, FirstPage(addr));
    assert FirstPage(addr) % PAGE_SIZE == 0;
    RunNatural(8, FirstPage(addr), PageCount(addr, size));
  }
}
