// The allocator itself: rtlib/libs/mem.c over a word memory, relinking its lists in place.
module PoolMachine {
  import opened Options
  import opened Sizes
  import opened Tiling
  import opened FreeLists
  import opened ListFacts
  import opened SplitMerge
  import opened PoolSpec
  import opened PoolFacts
  import opened PoolResults
  import opened HeapCells
  import opened Bits
  import opened Masks

  // From the live blocks and memory l0, m0 to l1, m1 over ops: every block never freed is where it
  // was, and every word of it holds what was last written there.
  ghost predicate Carried(l0: map<nat, Block>, m0: Memory, l1: map<nat, Block>, m1: Memory, ops: seq<Op>) {
    && |m1| == |m0|
    && (forall a :: a in l0 && OpFree(a) !in ops ==> a in l1 && l1[a] == l0[a])
    && (forall a, x: nat :: a in l0 && OpFree(a) !in ops && InBlock(a, l0[a], x) && x < |m0|
          ==> m1[x] == Written(ops, x, m0[x]))
  }

  lemma WrittenOnce(op: Op, x: nat, v: u32)
    ensures Written([op], x, v) == if op.OpWrite? && op.x == x then op.v else v
  {
    assert [op][1..] == [];
  }

  lemma CarriedNowhere(l: map<nat, Block>, m: Memory)
    ensures Carried(l, m, l, m, [])
  {
  }

  lemma CarriedOn(l0: map<nat, Block>, m0: Memory, l1: map<nat, Block>, m1: Memory,
                  l2: map<nat, Block>, m2: Memory, ops: seq<Op>)
    requires ops != [] && Carried(l0, m0, l1, m1, [ops[0]]) && Carried(l1, m1, l2, m2, ops[1..])
    ensures Carried(l0, m0, l2, m2, ops)
  {
    forall a, x: nat | a in l0 && OpFree(a) !in ops && InBlock(a, l0[a], x) && x < |m0|
      ensures m2[x] == Written(ops, x, m0[x])
    {
      assert OpFree(a) !in [ops[0]] && OpFree(a) !in ops[1..];
      WrittenOnce(ops[0], x, m0[x]);
    }
  }

  class Pool {
    const mem: array<u32>
    var bds: nat // the bucket table
    ghost var lo: nat
    ghost var hi: nat
    ghost var free: Lists
    ghost var live: map<nat, Block>

    constructor (m: array<u32>)
      ensures mem == m
    {
      mem := m;
      bds := 0;
    }

    // Every access is to an aligned word inside memory.
    predicate Address(p: nat) {
      p % 4 == 0 && p + 4 <= mem.Length
    }

    function Load(p: nat): u32
      requires Address(p)
      reads mem
    {
      mem[p]
    }

    method Store(p: nat, v: u32)
      requires Address(p)
      modifies mem
      ensures mem[..] == old(mem[..])[p := v]
    {
      mem[p] := v;
    }

    // The lists in memory are the lists free, and free is well placed.
    ghost predicate ListsIn()
      reads this, mem
    {
      Rep(mem[..], bds, free) && Placed(bds, mem.Length, free)
    }

    // The first loop of pool_add_free: each of the n blocks links to the next.
    method LinkBlocks(idx: nat, block: nat, n: nat, ghost R: seq<nat>)
      requires n >= 1 && mem.Length <= W32
      requires R == Run(block, n, Size(idx)) && Ascending(R)
      requires forall j :: 0 <= j < n ==> R[j] < mem.Length && Address(R[j])
      modifies mem
      ensures forall j :: 0 <= j < n - 1 ==> mem[R[j]] == R[j + 1]
      ensures forall x :: 0 <= x < mem.Length && x !in R ==> mem[x] == old(mem[x])
    {
      var i := 0;
      while i < n - 1
        invariant 0 <= i <= n - 1
        invariant forall j :: 0 <= j < i ==> mem[R[j]] == R[j + 1]
        invariant forall x :: 0 <= x < mem.Length && x !in R ==> mem[x] == old(mem[x])
      {
        RunAt(block, n, Size(idx), i);
        RunAt(block, n, Size(idx), i + 1);
        Store(block + i * Size(idx), block + (i + 1) * Size(idx));
        i := i + 1;
      }
    }

    // The rest of pool_add_free: hang the n linked blocks block..last behind the last smaller block.
    method Splice(idx: nat, block: nat, last: nat, n: nat, ghost L: seq<nat>)
      requires Bucket(mem[..], bds, idx, L) && block < W32 && |L| + n < W32
      requires Address(HeadSlot(bds, idx)) && Address(CountSlot(bds, idx)) && Address(last)
      requires last != HeadSlot(bds, idx) && last != CountSlot(bds, idx) && CountSlot(bds, idx) !in L
      requires forall j :: 0 <= j < |L| ==> L[j] > 0 && Address(L[j]) && L[j] != last
      modifies mem
      ensures var k := PosFrom(L, block, 0);
              && CellAt(HeadSlot(bds, idx), L, k) < mem.Length
              && mem[..] == old(mem[..])[last := Target(L, k)]
                           [CellAt(HeadSlot(bds, idx), L, k) := block][CountSlot(bds, idx) := |L| + n]
    {
      ghost var k := PosFrom(L, block, 0);
      var start := Load(HeadSlot(bds, idx));
      var prev := HeadSlot(bds, idx);
      assert mem[CellAt(HeadSlot(bds, idx), L, 0)] == Target(L, 0);
      if start == 0 {
        Store(last, 0);
        Store(HeadSlot(bds, idx), block);
      } else if block < start {
        Store(last, Load(HeadSlot(bds, idx)));
        Store(HeadSlot(bds, idx), block);
      } else {
        ghost var p := 0;
        while start != 0 && block > start
          invariant 0 <= p <= |L|
          invariant start == Target(L, p) && prev == CellAt(HeadSlot(bds, idx), L, p)
          invariant PosFrom(L, block, p) == k
          decreases |L| - p
        {
          assert mem[CellAt(HeadSlot(bds, idx), L, p + 1)] == Target(L, p + 1);
          prev := start;
          start := Load(start);
          p := p + 1;
        }
        Store(prev, block);
        Store(last, start);
      }
      Store(CountSlot(bds, idx), Load(CountSlot(bds, idx)) + n);
    }

    // n blocks from block on can join list idx: they are placed like blocks and are on no list.
    ghost predicate CanAdd(idx: nat, block: nat, n: nat)
      requires idx < BUDY_COUNT
      reads this
    {
      && n >= 1 && Ascending(Run(block, n, Size(idx)))
      && (forall a :: a in Run(block, n, Size(idx)) ==>
            Site(bds, mem.Length, a) && forall i :: 0 <= i < BUDY_COUNT ==> a !in free[i])
      && |free[idx]| + n < W32
    }

    // pool_add_free: link the n blocks from block on and splice them into list idx by address.
    method AddFree(idx: nat, block: nat, n: nat)
      requires ListsIn() && mem.Length <= W32 && (idx < BUDY_COUNT ==> CanAdd(idx, block, n))
      modifies mem, this`free
      ensures free == FreeLists.AddFree(old(free), idx, block, n)
      ensures Rep(mem[..], bds, free)
      ensures forall x :: 0 <= x < mem.Length && !InTable(bds, x)
                          && (idx < BUDY_COUNT ==> x !in old(free)[idx]) && x !in Run(block, n, Size(idx))
                          ==> mem[x] == old(mem[x])
    {
      if idx >= BUDY_COUNT {
        return;
      }
      ghost var m0, L, R := mem[..], free[idx], Run(block, n, Size(idx));
      ghost var k := PosFrom(L, block, 0);
      var last := block + (n - 1) * Size(idx);
      assert last == R[n - 1] && block == R[0] by {
        RunAt(block, n, Size(idx), n - 1);
        RunAt(block, n, Size(idx), 0);
      }
      AddressesOk(idx, L, R);
      LinkBlocks(idx, block, n, R);
      BucketFrame(m0, mem[..], bds, idx, L);
      ghost var m1 := mem[..];
      Splice(idx, block, last, n, L);
      SplicedRep(m0, m1, mem[..], bds, free, idx, k, R);
      free := FreeLists.AddFree(free, idx, block, n);
    }

    // Where the words of list idx and of a run next to it lie.
    lemma AddressesOk(idx: nat, L: seq<nat>, R: seq<nat>)
      requires ListsIn() && idx < BUDY_COUNT && L == free[idx]
      requires forall a :: a in R ==> Site(bds, mem.Length, a) && a !in L
      ensures Bucket(mem[..], bds, idx, L)
      ensures Address(HeadSlot(bds, idx)) && Address(CountSlot(bds, idx)) && Address(SizeSlot(bds, idx))
      ensures HeadSlot(bds, idx) !in L && CountSlot(bds, idx) !in L
      ensures HeadSlot(bds, idx) !in R && CountSlot(bds, idx) !in R
      ensures forall j :: 0 <= j < |L| ==> L[j] > 0 && Address(L[j]) && L[j] !in R
      ensures forall j :: 0 <= j < |R| ==> R[j] > 0 && Address(R[j])
    {
      OwnCells(mem[..], bds, free, idx, 0);
      forall j | 0 <= j < |L|
        ensures L[j] > 0 && Address(L[j]) && L[j] !in R
      {
        assert L[j] in L && Site(bds, mem.Length, L[j]);
      }
      forall j | 0 <= j < |R|
        ensures R[j] > 0 && Address(R[j])
      {
        assert R[j] in R;
      }
    }

    // The page region lies behind the bucket table and inside memory.
    ghost predicate Region()
      reads this
    {
      bds > 0 && bds % 4 == 0 && bds + TABLE_SIZE <= lo <= hi < W32 && hi <= mem.Length <= W32
    }

    // What every list operation keeps.
    ghost predicate ListsOk()
      reads this, mem
    {
      Region() && FreeOk(free, lo, hi) && Rep(mem[..], bds, free)
    }

    // bds[idx].free_n counts the list, so it is safe to test it before following free_list.
    function FreeN(idx: nat): (n: nat)
      requires ListsOk() && idx < BUDY_COUNT
      reads this, mem
      ensures n == |free[idx]|
    {
      assert Bucket(mem[..], bds, idx, free[idx]);
      Load(CountSlot(bds, idx))
    }

    // Relink the cell prev past the c entries behind it.
    method Unlink(idx: nat, prev: nat, next: nat, c: nat, ghost k: nat)
      requires ListsOk() && idx < BUDY_COUNT && k + c <= |free[idx]|
      requires prev == CellAt(HeadSlot(bds, idx), free[idx], k) && next == Target(free[idx], k + c)
      modifies mem, this`free
      ensures free == old(free)[idx := DropRun(old(free)[idx], k, c)]
      ensures Rep(mem[..], bds, free)
      ensures forall x :: 0 <= x < mem.Length && !InTable(bds, x) && x !in old(free)[idx] ==> mem[x] == old(mem[x])
    {
      hide DropRun;
      ghost var m0 := mem[..];
      Cursor(idx, k);
      Cursor(idx, k + c);
      AddressesOk(idx, free[idx], []);
      OwnCells(m0, bds, free, idx, k);
      Store(prev, next);
      Store(CountSlot(bds, idx), Load(CountSlot(bds, idx)) - c);
      RepDrop(m0, mem[..], bds, free, idx, k, c);
      free := free[idx := DropRun(free[idx], k, c)];
    }

    // Unlink the first block of a list.
    method TakeHead(idx: nat) returns (block: nat)
      requires ListsOk() && idx < BUDY_COUNT && free[idx] != []
      modifies mem, this`free
      ensures block == old(free)[idx][0] && free == PopHead(old(free), idx)
      ensures Rep(mem[..], bds, free)
      ensures forall x :: 0 <= x < mem.Length && !InTable(bds, x) && x !in old(free)[idx] ==> mem[x] == old(mem[x])
    {
      Cursor(idx, 0);
      Cursor(idx, 1);
      block := Load(HeadSlot(bds, idx));
      assert DropRun(free[idx], 0, 1) == free[idx][1..];
      Unlink(idx, HeadSlot(bds, idx), Load(block), 1, 0);
    }

    // pool_pull_upper: refill list idx by cutting up a block of a level above.
    method PullUpper(idx: nat)
      requires ListsOk()
      modifies mem, this`free
      ensures free == FreeLists.PullUpper(old(free), idx)
      ensures ListsOk()
      ensures forall x :: 0 <= x < mem.Length && !InTable(bds, x) && !FreeByte(old(free), x)
                          ==> mem[x] == old(mem[x])
      decreases BUDY_COUNT - idx
    {
      var upper := idx + 1;
      if upper >= BUDY_COUNT {
        return;
      }
      PullUpperKeeps(free, upper, lo, hi);
      if FreeN(upper) == 0 {
        PullUpper(upper);
      }
      if FreeN(upper) == 0 {
        return;
      }
      SplitHeadOf(idx);
    }

    // The second half of pool_pull_upper: the head block of the level above becomes two of level idx.
    method SplitHeadOf(idx: nat)
      requires ListsOk() && idx + 1 < BUDY_COUNT && free[idx + 1] != []
      modifies mem, this`free
      ensures free == SplitHead(old(free), idx)
      ensures ListsOk()
      ensures forall x :: 0 <= x < mem.Length && !InTable(bds, x) && !FreeByte(old(free), x)
                          ==> mem[x] == old(mem[x])
    {
      ghost var f0 := free;
      SplitKeeps(free, idx, lo, hi);
      var block := TakeHead(idx + 1);
      SplitSites(f0, idx);
      LinkHalves(idx, block);
      AddFree(idx, block, 2);
      SplitFrame(f0, idx);
    }

    lemma ClearSite(idx: nat, a: nat, y: nat, x: nat)
      requires Region() && idx < BUDY_COUNT && HalfAligned(idx, x)
      requires lo <= a <= x && x + Size(idx) <= y <= hi && ClearOf(free, a, y)
      ensures Site(bds, mem.Length, x) && forall i :: 0 <= i < BUDY_COUNT ==> x !in free[i]
    {
      hide AlignedTo, ClearOf, Size;
      WordAligned(if idx == 0 then 0 else idx - 1, x);
      ClearNotListed(free, a, y, x);
    }

    lemma JoinSite(idx: nat, a: nat, n: nat, x: nat)
      requires Region() && idx < BUDY_COUNT && x in Run(a, n, Size(idx)) && HalfAligned(idx, a)
      requires lo <= a && a + n * Size(idx) <= hi && ClearOf(free, a, a + n * Size(idx))
      ensures Site(bds, mem.Length, x) && forall i :: 0 <= i < BUDY_COUNT ==> x !in free[i]
    {
      hide ClearOf, HalfAligned, AlignedTo, Run, Site, RunAligned, Region;
      RunAscending(a, n, Size(idx));
      RunAlignedFrom(idx, a, n);
      assert a <= x && x + Size(idx) <= a + n * Size(idx);
      AlignedMember(idx, a, n, x);
      ClearSite(idx, a, a + n * Size(idx), x);
    }

    lemma JoinCount(idx: nat, a: nat, n: nat)
      requires Region() && FreeOk(free, lo, hi) && idx < BUDY_COUNT && HalfAligned(idx, a)
      requires lo <= a && a + n * Size(idx) <= hi && ClearOf(free, a, a + n * Size(idx))
      ensures |free[idx]| + n < W32
    {
      var f := FreeLists.AddFree(free, idx, a, n);
      RunAlignedFrom(idx, a, n);
      AddFreeStep(free, idx, a, n, lo, hi);
      FreeOkPlaced(bds, mem.Length, f, lo, hi);
      Countable(bds, mem.Length, f, idx);
    }

    // Link the two halves of a block that is on no list.
    method LinkHalves(idx: nat, block: nat)
      requires ListsIn() && mem.Length <= W32 && idx < BUDY_COUNT && CanAdd(idx, block, 2)
      modifies mem
      ensures Rep(mem[..], bds, free)
      ensures forall x :: 0 <= x < mem.Length && x !in Run(block, 2, Size(idx)) ==> mem[x] == old(mem[x])
    {
      ghost var m := mem[..];
      RunOfTwo(block, Size(idx));
      assert block in Run(block, 2, Size(idx)) && block + Size(idx) in Run(block, 2, Size(idx));
      Store(block, block + Size(idx));
      Store(block + Size(idx), 0);
      RepFrame(m, mem[..], bds, free);
    }

    // Blocks in a place clear of the lists can join a list.
    lemma JoinOk(idx: nat, a: nat, n: nat)
      requires Region() && FreeOk(free, lo, hi) && idx < BUDY_COUNT && n >= 1 && HalfAligned(idx, a)
      requires lo <= a && a + n * Size(idx) <= hi && ClearOf(free, a, a + n * Size(idx))
      ensures CanAdd(idx, a, n)
    {
      RunAscending(a, n, Size(idx));
      JoinCount(idx, a, n);
      forall x | x in Run(a, n, Size(idx))
        ensures Site(bds, mem.Length, x) && forall i :: 0 <= i < BUDY_COUNT ==> x !in free[i]
      {
        JoinSite(idx, a, n, x);
      }
    }

    // Both halves of the block just unlinked are placed like blocks and are on no list.
    lemma SplitSites(f0: Lists, idx: nat)
      requires Region() && FreeOk(f0, lo, hi) && idx + 1 < BUDY_COUNT && f0[idx + 1] != []
      requires free == PopHead(f0, idx + 1)
      ensures var a, sz := f0[idx + 1][0], Size(idx);
              && CanAdd(idx, a, 2) && Placed(bds, mem.Length, free)
              && Run(a, 2, sz) == [a, a + sz]
    {
      var a := f0[idx + 1][0];
      PopStep(f0, idx + 1, lo, hi);
      FreeOkPlaced(bds, mem.Length, free, lo, hi);
      SplitAligned(idx, a);
      JoinOk(idx, a, 2);
      RunOfTwo(a, Size(idx));
    }

    // Every block touched by the split lies in bytes that were free before it.
    lemma SplitFrame(f0: Lists, idx: nat)
      requires idx + 1 < BUDY_COUNT && f0[idx + 1] != []
      ensures forall a :: a in PopHead(f0, idx + 1)[idx] ==> FreeByte(f0, a)
      ensures forall a :: a in Run(f0[idx + 1][0], 2, Size(idx)) ==> FreeByte(f0, a)
      ensures forall a :: a in f0[idx + 1] ==> FreeByte(f0, a)
    {
      var a := f0[idx + 1][0];
      BlockIsFree(f0, idx + 1, a);
      RunOfTwo(a, Size(idx));
      forall i, c | idx <= i <= idx + 1 && c in f0[i]
        ensures FreeByte(f0, c)
      {
        BlockIsFree(f0, i, c);
      }
    }

    // The cell that points at entry k of list idx, and the entry: what prev and curr hold.
    lemma Cursor(idx: nat, k: nat)
      requires ListsOk() && idx < BUDY_COUNT && k <= |free[idx]|
      ensures Placed(bds, mem.Length, free)
      ensures Address(CellAt(HeadSlot(bds, idx), free[idx], k))
      ensures mem[CellAt(HeadSlot(bds, idx), free[idx], k)] == Target(free[idx], k)
      ensures k < |free[idx]| ==> free[idx][k] > 0
    {
      FreeOkPlaced(bds, mem.Length, free, lo, hi);
      AddressesOk(idx, free[idx], []);
    }

    // The block that the two halves make up can join the list above.
    lemma MergeSites(f0: Lists, idx: nat, k: nat)
      requires Region() && FreeOk(f0, lo, hi) && idx + 1 < BUDY_COUNT && Mergeable(f0[idx], idx, k)
      requires free == TakePair(f0, idx, k)
      ensures CanAdd(idx + 1, f0[idx][k], 1) && Placed(bds, mem.Length, free)
    {
      DropPairStep(f0, idx, k, lo, hi);
      FreeOkPlaced(bds, mem.Length, free, lo, hi);
      MergeAligned(idx, f0[idx][k]);
      JoinOk(idx + 1, f0[idx][k], 1);
    }

    lemma MergeFrame(f0: Lists, idx: nat, k: nat)
      requires idx + 1 < BUDY_COUNT && k + 1 < |f0[idx]|
      ensures forall a :: a in TakePair(f0, idx, k)[idx + 1] ==> FreeByte(f0, a)
      ensures forall a :: a in Run(f0[idx][k], 1, Size(idx + 1)) ==> FreeByte(f0, a)
      ensures forall a :: a in f0[idx] ==> FreeByte(f0, a)
    {
      RunOfTwo(f0[idx][k], Size(idx + 1));
      forall i, a | idx <= i <= idx + 1 && a in f0[i]
        ensures FreeByte(f0, a)
      {
        BlockIsFree(f0, i, a);
      }
    }

    // The shrinking branch of the merge loop.
    method MergePair(idx: nat, prev: nat, curr: nat, ghost k: nat) returns (next: nat)
      requires ListsOk() && idx + 1 < BUDY_COUNT && Mergeable(free[idx], idx, k)
      requires curr == free[idx][k] && prev == CellAt(HeadSlot(bds, idx), free[idx], k)
      modifies mem, this`free
      ensures free == MergeAt(old(free), idx, k) && next == Target(free[idx], k)
      ensures ListsOk()
      ensures forall x :: 0 <= x < mem.Length && !InTable(bds, x) && !FreeByte(old(free), x)
                          ==> mem[x] == old(mem[x])
    {
      ghost var f0 := free;
      MergeKeeps(free, idx, k, lo, hi);
      MergeFrame(free, idx, k);
      Cursor(idx, k + 1);
      Cursor(idx, k + 2);
      next := Load(Load(curr));
      assert DropRun(free[idx], k, 2) == DropPair(free[idx], k);
      Unlink(idx, prev, next, 2, k);
      MergeSites(f0, idx, k);
      AddFree(idx + 1, curr, 1);
    }

    // The loop of pool_try_shrink over one list.
    method ShrinkLevel(idx: nat)
      requires ListsOk() && idx + 1 < BUDY_COUNT
      modifies mem, this`free
      ensures free == ShrinkFrom(old(free), idx, 0)
      ensures ListsOk()
      ensures forall x :: 0 <= x < mem.Length && !InTable(bds, x) && !FreeByte(old(free), x)
                          ==> mem[x] == old(mem[x])
    {
      hide FreeByte;
      Cursor(idx, 0);
      var curr := Load(HeadSlot(bds, idx));
      var prev := HeadSlot(bds, idx);
      ghost var k := 0;
      while curr != 0
        invariant ListsOk() && k <= |free[idx]|
        invariant curr == Target(free[idx], k) && prev == CellAt(HeadSlot(bds, idx), free[idx], k)
        invariant ShrinkFrom(free, idx, k) == ShrinkFrom(old(free), idx, 0)
        invariant SameBytes(free, old(free))
        invariant forall x :: 0 <= x < mem.Length && !InTable(bds, x) && !FreeByte(old(free), x)
                              ==> mem[x] == old(mem[x])
        decreases |free[idx]| - k
      {
        Cursor(idx, k);
        Cursor(idx, k + 1);
        MaskTest(idx, curr);
        if Load(curr) == curr + Size(idx) && And(curr, Size(idx) - 1) == 0 {
          MergeKeeps(free, idx, k, lo, hi);
          curr := MergePair(idx, prev, curr, k);
        } else {
          prev := curr;
          curr := Load(curr);
          k := k + 1;
        }
      }
      Cursor(idx, k);
    }

    // pool_try_shrink: merge neighbours on list idx and on every list above it.
    method TryShrink(idx: nat)
      requires ListsOk()
      modifies mem, this`free
      ensures free == Shrink(old(free), idx)
      ensures ListsOk()
      ensures forall x :: 0 <= x < mem.Length && !InTable(bds, x) && !FreeByte(old(free), x)
                          ==> mem[x] == old(mem[x])
      decreases BUDY_COUNT - idx
    {
      if idx >= BUDY_COUNT - 1 {
        return;
      }
      ShrinkFromKeeps(free, idx, 0, lo, hi);
      ShrinkLevel(idx);
      TryShrink(idx + 1);
    }

    // The search loop of pool_alloc_continues. If it succeeds, prev is the cell that points at the
    // run, block its first page and start the page behind it.
    method FindRun(n: nat, ghost L: seq<nat>)
      returns (found: bool, prev: nat, block: nat, start: nat, ghost k: nat)
      requires Bucket(mem[..], bds, 8, L) && n > 0
      requires Address(HeadSlot(bds, 8)) && Address(SizeSlot(bds, 8))
      requires forall j :: 0 <= j < |L| ==> L[j] > 0 && Address(L[j])
      ensures found == FirstRun(L, n, PAGE_SIZE, 0).Some?
      ensures found ==> FirstRun(L, n, PAGE_SIZE, 0) == Some(k) && block == L[k]
      ensures found ==> prev == CellAt(HeadSlot(bds, 8), L, k) && start == Target(L, k + n)
    {
      SizeTable();
      var size := Load(SizeSlot(bds, 8));
      assert mem[CellAt(HeadSlot(bds, 8), L, 0)] == Target(L, 0);
      start := Load(HeadSlot(bds, 8));
      block, prev := start, HeadSlot(bds, 8);
      var left := n;
      k := 0;
      ghost var i := 0;
      while start != 0 && left > 0
        invariant k <= i <= |L| && left == n - (i - k) && (k < i ==> i < |L|)
        invariant start == Target(L, i) && block == Target(L, k) && prev == CellAt(HeadSlot(bds, 8), L, k)
        invariant forall j :: k <= j < i ==> L[j + 1] == L[j] + PAGE_SIZE
        invariant forall j :: 0 <= j < k ==> !LinkRun(L, n, j, PAGE_SIZE)
        decreases |L| - i
      {
        assert mem[CellAt(HeadSlot(bds, 8), L, i + 1)] == Target(L, i + 1);
        if start + size == Load(start) {
          left := left - 1;
        } else {
          BrokenLink(L, n, k, i);
          prev := start;
          block := Load(start);
          left := n;
          k := i + 1;
        }
        start := Load(start);
        i := i + 1;
      }
      FirstRunIs(L, n, k);
      found := left == 0;
    }

    // pool_alloc_continues: unlink the first n pages of the first run of n links.
    method AllocContinues(n: nat) returns (p: nat)
      requires ListsOk() && n > 0
      modifies mem, this`free
      ensures match FirstRun(old(free)[8], n, PAGE_SIZE, 0)
              case None => p == 0 && free == old(free)
              case Some(k) => p != 0 && p == old(free)[8][k] && free == old(free)[8 := DropRun(old(free)[8], k, n)]
      ensures Rep(mem[..], bds, free)
      ensures forall x :: 0 <= x < mem.Length && !InTable(bds, x) && x !in old(free)[8] ==> mem[x] == old(mem[x])
    {
      var found, prev, block, start;
      ghost var k;
      FreeOkPlaced(bds, mem.Length, free, lo, hi);
      AddressesOk(8, free[8], []);
      found, prev, block, start, k := FindRun(n, free[8]);
      if !found {
        return 0;
      }
      Unlink(8, prev, start, n, k);
      return block;
    }

    // A break at link i rules out every run that would need it.
    lemma BrokenLink(L: seq<nat>, n: nat, k: nat, i: nat)
      requires k <= i < |L| && i - k < n
      requires i + 1 < |L| ==> L[i + 1] != L[i] + PAGE_SIZE
      ensures forall j :: k <= j <= i ==> !LinkRun(L, n, j, PAGE_SIZE)
    {
      forall j | k <= j <= i
        ensures !LinkRun(L, n, j, PAGE_SIZE)
      {
        if i + 1 < |L| {
          assert j <= i < j + n;
        }
      }
    }

    lemma FirstRunIs(L: seq<nat>, n: nat, k: nat)
      requires k <= |L|
      requires forall j :: 0 <= j < k ==> !LinkRun(L, n, j, PAGE_SIZE)
      ensures FirstRun(L, n, PAGE_SIZE, 0) == FirstRun(L, n, PAGE_SIZE, k)
    {
      if k > 0 {
        FirstRunIs(L, n, k - 1);
      }
    }

    // ---- The pool ----

    ghost function Now(): State
      reads this
    {
      State(lo, hi, free, live)
    }

    // Every live block carries the header that was written when it was handed out.
    ghost predicate Headers()
      reads this, mem
    {
      HeadersIn(mem[..], live)
    }

    ghost predicate Valid()
      reads this, mem
    {
      Region() && Inv(Now()) && Rep(mem[..], bds, free) && Headers()
    }

    // A word the allocator may rewrite: in the bucket table or in a free block.
    ghost predicate Scratch(f: Lists, x: int)
      reads this
    {
      InTable(bds, x) || FreeByte(f, x)
    }

    lemma ValidLists()
      requires Valid()
      ensures ListsOk()
    {
      InvFreeOk(Now());
    }

    // No byte of a live block is scratch: every call leaves live headers and payloads alone.
    lemma LiveByteIsSafe(a: nat, x: nat)
      requires Region() && Inv(Now()) && a in live && InBlock(a, live[a], x)
      ensures !Scratch(free, x)
    {
      LiveIsClear(Now(), a);
      FreeIsNotLive(Now(), x);
    }

    lemma HeaderIsSafe(a: nat)
      requires Region() && Inv(Now()) && a in live
      ensures !Scratch(free, a) && !Scratch(free, a + 4) && a + 16 <= hi
      ensures Address(a) && Address(a + 4)
    {
      Aligned4(live[a].idx, a);
      LiveIsClear(Now(), a);
      BytesPositive(live[a]);
      LiveByteIsSafe(a, a);
      LiveByteIsSafe(a, a + 4);
    }

    // Writes to the table and to free blocks change no live header.
    lemma HeadersKept(s: State, m: Memory, n: Memory)
      requires Region() && Inv(s) && s.hi == hi && bds + TABLE_SIZE <= s.lo
      requires |m| == |n| == mem.Length && HeadersIn(m, s.live)
      requires forall x :: 0 <= x < |m| && !InTable(bds, x) && !FreeByte(s.free, x) ==> n[x] == m[x]
      ensures HeadersIn(n, s.live)
    {
      forall a | a in s.live
        ensures HeaderAt(n, a, s.live[a])
      {
        assert HeaderAt(m, a, s.live[a]);
        LiveIsClear(s, a);
        BytesPositive(s.live[a]);
        FreeIsNotLive(s, a);
        FreeIsNotLive(s, a + 4);
        assert InBlock(a, s.live[a], a) && InBlock(a, s.live[a], a + 4);
      }
    }

    // A new header leaves the others alone.
    lemma HeaderAdded(m: Memory, n: Memory, was: map<nat, Block>, bh: nat)
      requires Region() && Inv(Now()) && bh in live && |m| == |n| == mem.Length
      requires live == was[bh := live[bh]] && HeadersIn(m, was) && HeaderAt(n, bh, live[bh])
      requires forall x :: 0 <= x < |m| && x != bh && x != bh + 4 ==> n[x] == m[x]
      ensures HeadersIn(n, live)
    {
      HeadersApart(bh);
      forall a | a in live
        ensures HeaderAt(n, a, live[a])
      {
        if a != bh {
          assert HeaderAt(m, a, was[a]);
          HeaderIsSafe(a);
        }
      }
    }

    // Write the header of a block just unlinked.
    method WriteHeader(bh: nat, idx: nat, count: nat)
      requires Region() && Rep(mem[..], bds, free) && Headers() && bh !in live
      requires Inv(State(lo, hi, free, live[bh := Block(idx, count)]))
      modifies mem, this`live
      ensures live == old(live)[bh := Block(idx, count)]
      ensures Valid()
      ensures forall x :: 0 <= x < mem.Length && x != bh && x != bh + 4 ==> mem[x] == old(mem[x])
    {
      ghost var m, was := mem[..], live;
      live := live[bh := Block(idx, count)];
      HeaderIsSafe(bh);
      Store(bh, HeaderWord(idx, count));
      Store(bh + 4, OBJ_MAGIC);
      LiveWriteKeepsLists(m, mem[..], bh);
      HeaderAdded(m, mem[..], was, bh);
    }

    // A write to the header of a live block leaves the lists alone.
    lemma LiveWriteKeepsLists(m: Memory, n: Memory, bh: nat)
      requires Region() && Inv(Now()) && bh in live && |m| == |n| == mem.Length
      requires Rep(m, bds, free)
      requires forall x :: 0 <= x < |m| && x != bh && x != bh + 4 ==> n[x] == m[x]
      ensures Rep(n, bds, free)
    {
      HeaderIsSafe(bh);
      LiveNotListed(bh);
      InvFreeOk(Now());
      FreeOkPlaced(bds, mem.Length, free, lo, hi);
      RepFrame(m, n, bds, free);
    }

    // Headers of different live blocks do not overlap.
    lemma HeadersApart(a: nat)
      requires Inv(Now()) && a in live
      ensures forall c :: c in live && c != a ==> c + 4 < a || a + 4 < c
    {
      BytesPositive(live[a]);
      assert Piece(a, live[a].Bytes(), true) in LivePieces(live);
      forall c | c in live && c != a
        ensures c + 4 < a || a + 4 < c
      {
        BytesPositive(live[c]);
        assert Piece(c, live[c].Bytes(), true) in LivePieces(live);
      }
    }

    lemma LiveNotListed(a: nat)
      requires Inv(Now()) && a in live
      ensures forall i, c :: 0 <= i < BUDY_COUNT && c in free[i] ==> c != a && c != a + 4
    {
      BytesPositive(live[a]);
      LiveIsClear(Now(), a);
      ClearNotListed(free, a, a + live[a].Bytes(), a);
      ClearNotListed(free, a, a + live[a].Bytes(), a + 4);
    }

    // The log2 loop of pool_malloc.
    method HighestBit(size: nat) returns (idx: nat)
      requires size > 0
      ensures idx == Log2(size)
    {
      idx := 0;
      var tmp := size / 2;
      while tmp != 0
        invariant 0 <= tmp && idx + (if tmp == 0 then 0 else 1 + Log2(tmp)) == Log2(size)
        decreases tmp
      {
        idx := idx + 1;
        tmp := tmp / 2;
      }
    }

    // The loop and the adjustment of its result: the least level that holds size bytes.
    method SizeClass(size: nat) returns (idx: nat)
      requires OBJ_MIN <= size <= PAGE_SIZE
      ensures idx == LevelFor(size)
    {
      idx := HighestBit(size);
      Log2Bounds(size);
      Pow2Size(idx);
      var p := Pow2(idx);
      RoundUpFixpoint(size, p);
      if ClearLow(p - 1 + size, p) == size {
        idx := idx - 1;
      }
      idx := idx - 3;
      LeastFitting(size, idx);
    }

    // pool_malloc: the payload address, 0 for NULL.
    method Malloc(size: nat) returns (p: nat)
      requires Valid() && size + HEADER_SIZE + MEM_ALIGN + PAGE_SIZE < W32 / 2 && Recorded(Now(), size)
      modifies mem, this`free, this`live
      ensures Valid()
      ensures (Now(), p) == PoolSpec.Malloc(old(Now()), size)
      ensures forall x :: 0 <= x < mem.Length && !InTable(bds, x) && !FreeByte(old(free), x)
                          ==> mem[x] == old(mem[x])
    {
      if size == 0 {
        return 0;
      }
      var need := RoundUp(size + HEADER_SIZE, MEM_ALIGN);
      SizeTable();
      assert Bucket(mem[..], bds, 8, free[8]);
      if need > Load(SizeSlot(bds, 8)) {
        p := MallocRun(RoundUp(need, PAGE_SIZE) / PAGE_SIZE);
      } else {
        p := MallocSmall(size);
      }
    }

    // pool_malloc, large branch: count whole pages in a row.
    method MallocRun(count: nat) returns (p: nat)
      requires Valid() && count > 0
      requires count < 0x1_0000 || FirstRun(free[8], count, PAGE_SIZE, 0).None?
      modifies mem, this`free, this`live
      ensures Valid()
      ensures Now() == MallocPages(old(Now()), count).0 && p == MallocPages(old(Now()), count).1
      ensures forall x :: 0 <= x < mem.Length && !InTable(bds, x) && !FreeByte(old(free), x)
                          ==> mem[x] == old(mem[x])
    {
      ghost var s, m := Now(), mem[..];
      ValidLists();
      ListIsFree(8);
      if FirstRun(free[8], count, PAGE_SIZE, 0).Some? {
        LargeHandOut(s, count);
      } else {
        assert MallocPages(s, count) == (s, 0);
      }
      var bh := AllocContinues(count);
      HeadersKept(s, m, mem[..]);
      if bh == 0 {
        return 0;
      }
      WriteHeader(bh, 8, count);
      return bh + HEADER_SIZE;
    }

    // pool_malloc, small branch: the first block of the least fitting level.
    method MallocSmall(size: nat) returns (p: nat)
      requires Valid() && 0 < size && Needed(size) <= PAGE_SIZE
      modifies mem, this`free, this`live
      ensures Valid()
      ensures (Now(), p) == MallocBlock(old(Now()), LevelFor(Needed(size)))
      ensures forall x :: 0 <= x < mem.Length && !InTable(bds, x) && !FreeByte(old(free), x)
                          ==> mem[x] == old(mem[x])
    {
      hide Inv, Rep, HeadersIn, FreeByte, LevelFor, Size;
      var idx := SizeClass(RoundUp(size + HEADER_SIZE, MEM_ALIGN));
      ValidLists();
      RefillIfEmpty(idx);
      ValidLists();
      if FreeN(idx) == 0 {
        return 0;
      }
      p := HandOutHead(idx);
    }

    method RefillIfEmpty(idx: nat)
      requires Valid() && idx < BUDY_COUNT
      modifies mem, this`free
      ensures Valid() && free == Refill(old(free), idx)
      ensures SameBytes(free, old(free))
      ensures forall x :: 0 <= x < mem.Length && !InTable(bds, x) && !FreeByte(old(free), x)
                          ==> mem[x] == old(mem[x])
    {
      ghost var s, m := Now(), mem[..];
      ValidLists();
      RefillInv(s, idx);
      RefillKeeps(free, idx, lo, hi);
      if FreeN(idx) == 0 {
        PullUpper(idx);
      }
      HeadersKept(s, m, mem[..]);
      assert Now() == s.(free := Refill(s.free, idx));
    }

    method HandOutHead(idx: nat) returns (p: nat)
      requires Valid() && idx < BUDY_COUNT && free[idx] != []
      modifies mem, this`free, this`live
      ensures Valid() && p == old(free)[idx][0] + HEADER_SIZE
      ensures free == PopHead(old(free), idx) && live == old(live)[old(free)[idx][0] := Block(idx, 1)]
      ensures forall x :: 0 <= x < mem.Length && !InTable(bds, x) && !FreeByte(old(free), x)
                          ==> mem[x] == old(mem[x])
    {
      ghost var s, m := Now(), mem[..];
      ValidLists();
      ListIsFree(idx);
      BlockIsFree(free, idx, free[idx][0]);
      PopInv(s, idx);
      var bh := TakeHead(idx);
      HeadersKept(s, m, mem[..]);
      WriteHeader(bh, idx, 1);
      p := bh + HEADER_SIZE;
    }

    lemma ListIsFree(idx: nat)
      requires idx < BUDY_COUNT
      ensures forall a :: a in free[idx] ==> FreeByte(free, a)
    {
      forall a | a in free[idx]
        ensures FreeByte(free, a)
      {
        BlockIsFree(free, idx, a);
      }
    }

    // A successful page search leaves a state in which the run can be handed out.
    lemma LargeHandOut(s: State, count: nat)
      requires Inv(s) && 0 < count < 0x1_0000 && FirstRun(s.free[8], count, PAGE_SIZE, 0).Some?
      ensures var a := s.free[8][FirstRun(s.free[8], count, PAGE_SIZE, 0).value];
              && a !in s.live && FreeByte(s.free, a) && FreeByte(s.free, a + 4)
      ensures var k := FirstRun(s.free[8], count, PAGE_SIZE, 0).value;
              var a, f := s.free[8][k], s.free[8 := DropRun(s.free[8], k, count)];
              var s' := State(s.lo, s.hi, f, s.live[a := Block(8, count)]);
              MallocPages(s, count) == (s', a + HEADER_SIZE) && Inv(s')
    {
      hide Inv, FreePieces;
      var k := FirstRun(s.free[8], count, PAGE_SIZE, 0).value;
      PageIsFree(s, s.free[8][k]);
      MallocPagesInv(s, count);
    }

    lemma PageIsFree(s: State, a: nat)
      requires Inv(s) && a in s.free[8]
      ensures a !in s.live && FreeByte(s.free, a) && FreeByte(s.free, a + 4)
    {
      var t := Piece(a, Size(8), false);
      assert t in FreePieces(s.free);
      FreeNotLive(s, t);
      BlockIsFree(s.free, 8, a);
    }

    // pool_free of the payload address p. A wrong magic word or level is reported and ignored.
    method Free(p: nat)
      requires Valid() && HEADER_SIZE <= p <= mem.Length && p % 4 == 0
      requires mem[p - 4] == 0xA1B2_C3D4 && mem[p - 8] % 0x1_0000 < 9 ==> p - 8 in live
      modifies mem, this`free, this`live
      ensures Valid()
      ensures if old(mem[p - 4]) == 0xA1B2_C3D4 && old(mem[p - 8]) % 0x1_0000 < 9
              then p - 8 in old(Now()).live && Now() == PoolSpec.Free(old(Now()), p - 8)
              else Now() == old(Now()) && mem[..] == old(mem[..])
      ensures forall x :: 0 <= x < mem.Length && !InTable(bds, x) && !FreeByte(old(free), x)
                          && !(p - 8 in old(live) && InBlock(p - 8, old(live)[p - 8], x))
                          ==> mem[x] == old(mem[x])
    {
      hide Inv, Rep, HeadersIn, PoolSpec.Free, FreeByte, InBlock;
      var bh := p - HEADER_SIZE;
      if Load(bh + 4) != OBJ_MAGIC {
        return;
      }
      if HeaderIdx(Load(bh)) >= BUDY_COUNT {
        return;
      }
      FreeLive(bh);
    }

    // pool_free once the header has been accepted.
    method FreeLive(bh: nat)
      requires Valid() && bh in live
      modifies mem, this`free, this`live
      ensures Valid() && Now() == PoolSpec.Free(old(Now()), bh)
      ensures forall x :: 0 <= x < mem.Length && !InTable(bds, x) && !FreeByte(old(free), x)
                          && !InBlock(bh, old(live)[bh], x)
                          ==> mem[x] == old(mem[x])
    {
      hide Rep, Shaped, LiveOk;
      ghost var s := Now();
      HeaderReadsBack(bh);
      var idx, count := HeaderIdx(Load(bh)), HeaderCount(Load(bh));
      FreeInv(s, bh);
      ReturnToList(bh, idx, count);
      ghost var s1, m1 := Now(), mem[..];
      ValidLists();
      if FreeN(idx) > SHRINK_THD {
        TryShrink(idx);
        HeadersKept(s1, m1, mem[..]);
      }
    }

    // The header of a live block still says what was written when the block was handed out.
    lemma HeaderReadsBack(bh: nat)
      requires Valid() && bh in live
      ensures Address(bh) && Address(bh + 4) && mem[bh + 4] == OBJ_MAGIC && live[bh].idx < BUDY_COUNT
      ensures HeaderIdx(mem[bh]) == live[bh].idx && HeaderCount(mem[bh]) == live[bh].count
    {
      HeaderIsSafe(bh);
      assert HeaderAt(mem[..], bh, live[bh]);
      HeaderReads(live[bh].idx, live[bh].count);
    }

    // The first half of pool_free: the live block goes back on its list.
    method ReturnToList(bh: nat, idx: nat, count: nat)
      requires Valid() && bh in live && live[bh] == Block(idx, count)
      modifies mem, this`free, this`live
      ensures Valid()
      ensures live == old(live) - {bh} && free == FreeLists.AddFree(old(free), idx, bh, count)
      ensures forall x :: FreeByte(free, x) <==> FreeByte(old(free), x) || InBlock(bh, Block(idx, count), x)
      ensures forall x :: 0 <= x < mem.Length && !InTable(bds, x) && !FreeByte(free, x) ==> mem[x] == old(mem[x])
    {
      hide HeaderAt;
      ghost var s, m := Now(), mem[..];
      ValidLists();
      LiveIsClear(s, bh);
      JoinOk(idx, bh, count);
      FreeOkPlaced(bds, mem.Length, free, lo, hi);
      TakeBackInv(s, bh);
      TakeBackBytes(s, bh);
      AddFree(idx, bh, count);
      ListIsFree(idx);
      InsertRunMembers(s.free[idx], bh, count, Size(idx));
      live := live - {bh};
      HeadersKept(Now(), m, mem[..]);
    }

    lemma FreeReady(a: nat)
      requires Valid() && a in live
      ensures a + HEADER_SIZE <= mem.Length && (a + HEADER_SIZE) % 4 == 0
      ensures mem[a + 4] == 0xA1B2_C3D4 && mem[a] % 0x1_0000 < 9
    {
      hide Inv, Rep, HeadersIn, Region;
      HeaderReadsBack(a);
      EightMore4(a);
    }

    // A client's calls and writes, one after the other: the machine goes through a history of the
    // transition system, so everything proved about histories holds of it; and every block that is
    // never freed stays where it is and holds at every byte what the client last wrote there.
    method Serve(ops: seq<Op>)
      requires Valid() && AllAllowed(Now(), ops)
      requires forall k :: 0 <= k < |ops| && ops[k].OpMalloc? ==> ops[k].size < 0x7FFF_0000 - PAGE_SIZE
      modifies mem, this`free, this`live
      ensures Valid() && History(old(Now()), ops, Now())
      ensures Carried(old(live), old(mem[..]), live, mem[..], ops)
      decreases |ops|
    {
      hide Inv, Rep, HeadersIn, Region, HeaderIdx, PoolSpec.Malloc, PoolSpec.Free, Carried;
      ghost var l0, m0 := live, mem[..];
      if ops != [] {
        ServeOne(ops[0]);
        ghost var l1, m1 := live, mem[..];
        Serve(ops[1..]);
        CarriedOn(l0, m0, l1, m1, live, mem[..], ops);
      } else {
        CarriedNowhere(live, mem[..]);
      }
    }

    method ServeOne(op: Op)
      requires Valid() && Allowed(Now(), op)
      requires op.OpMalloc? ==> op.size < 0x7FFF_0000 - PAGE_SIZE
      modifies mem, this`free, this`live
      ensures Valid() && Now() == PoolResults.Step(old(Now()), op)
      ensures Carried(old(live), old(mem[..]), live, mem[..], [op])
    {
      hide Inv, Rep, HeadersIn, Region, HeaderIdx, PoolSpec.Malloc, PoolSpec.Free, Carried, InBlock;
      ghost var s, m := Now(), mem[..];
      match op {
        case OpMalloc(size) =>
          var p := Malloc(size);
        case OpFree(a) =>
          FreeReady(a);
          Free(a + HEADER_SIZE);
        case OpWrite(a, x, v) =>
          PayloadAddress(a, x);
          ClientWrite(a, x, v);
      }
      StepCarries(s, m, op, mem[..]);
    }

    lemma PayloadAddress(a: nat, x: nat)
      requires Valid() && a in live && InPayload(a, live[a], x)
      ensures Address(x)
    {
      LiveIsClear(Now(), a);
    }

    // The words outside the table, the free blocks and a block given back keep their values, the
    // word written takes the one written: so live blocks carry on.
    lemma StepCarries(s: State, m0: Memory, op: Op, m1: Memory)
      requires Region() && Inv(s) && s.lo == lo && s.hi == hi && Allowed(s, op) && |m0| == |m1| == mem.Length
      requires op.OpWrite? ==> op.x < |m0| && m1 == m0[op.x := op.v]
      requires !op.OpWrite? ==>
                 forall x :: 0 <= x < |m0| && !InTable(bds, x) && !FreeByte(s.free, x)
                             && !(op.OpFree? && InBlock(op.header, s.live[op.header], x))
                             ==> m1[x] == m0[x]
      ensures Carried(s.live, m0, PoolResults.Step(s, op).live, m1, [op])
    {
      hide Inv, FreeByte, PoolSpec.Malloc;
      var s1 := PoolResults.Step(s, op);
      forall a | a in s.live && OpFree(a) !in [op]
        ensures a in s1.live && s1.live[a] == s.live[a]
      {
        assert OpFree(a) != op;
        if op.OpMalloc? {
          MallocKeepsLive(s, op.size, a);
        }
      }
      forall a, x: nat | a in s.live && OpFree(a) !in [op] && InBlock(a, s.live[a], x) && x < |m0|
        ensures m1[x] == Written([op], x, m0[x])
      {
        assert OpFree(a) != op;
        LiveIsClear(s, a);
        FreeIsNotLive(s, x);
        if op.OpFree? {
          LiveApart(s, a, op.header, x);
        }
        WrittenOnce(op, x, m0[x]);
      }
    }

    // A client writes a word of its own payload.
    method ClientWrite(a: nat, x: nat, v: u32)
      requires Valid() && a in live && Address(x)
      requires a + HEADER_SIZE <= x && x + 4 <= a + live[a].Bytes()
      modifies mem
      ensures Valid() && mem[..] == old(mem[..])[x := v]
    {
      ghost var m := mem[..];
      mem[x] := v;
      PayloadOffLists(a, x, m, mem[..]);
      PayloadOffHeaders(a, x, m, mem[..]);
    }

    lemma PayloadOffLists(a: nat, x: nat, m: Memory, n: Memory)
      requires Region() && Inv(Now()) && a in live && |m| == |n| == mem.Length && Rep(m, bds, free)
      requires a + HEADER_SIZE <= x && x + 4 <= a + live[a].Bytes()
      requires forall y :: 0 <= y < |m| && y != x ==> n[y] == m[y]
      ensures Rep(n, bds, free)
    {
      LiveIsClear(Now(), a);
      ClearNotListed(free, a, a + live[a].Bytes(), x);
      InvFreeOk(Now());
      FreeOkPlaced(bds, mem.Length, free, lo, hi);
      RepFrame(m, n, bds, free);
    }

    lemma PayloadOffHeaders(a: nat, x: nat, m: Memory, n: Memory)
      requires Inv(Now()) && a in live && |m| == |n| && HeadersIn(m, live)
      requires a + HEADER_SIZE <= x && x + 4 <= a + live[a].Bytes()
      requires forall y :: 0 <= y < |m| && y != x ==> n[y] == m[y]
      ensures HeadersIn(n, live)
    {
      assert Piece(a, live[a].Bytes(), true) in LivePieces(live);
      forall c | c in live
        ensures HeaderAt(n, c, live[c])
      {
        assert HeaderAt(m, c, live[c]);
        BytesPositive(live[c]);
        assert Piece(c, live[c].Bytes(), true) in LivePieces(live);
      }
    }

    // The address of page j.
    function PageAt(start: nat, j: nat): nat { start + PAGE_SIZE * j }

    // The first n pages from start on are chained in memory m.
    ghost predicate Linked(m: Memory, start: nat, n: nat) {
      && PageAt(start, n) <= |m|
      && forall j :: 0 <= j < n ==> m[PageAt(start, j)] == (if j + 1 < n then PageAt(start, j + 1) else 0)
    }

    lemma LinkedFrame(m1: Memory, m2: Memory, start: nat, n: nat)
      requires Linked(m1, start, n) && |m2| == |m1|
      requires forall x :: start <= x < |m1| ==> m2[x] == m1[x]
      ensures Linked(m2, start, n)
    {
      assert forall j :: 0 <= j < n ==> m2[PageAt(start, j)] == m1[PageAt(start, j)];
    }

    // The page loop of pool_create: whole pages strictly below limit, each linked to the next.
    method LayPages(start: nat, limit: nat) returns (n: nat)
      requires start % 4 == 0 && start + PAGE_SIZE < limit <= mem.Length <= W32
      modifies mem
      ensures n == (limit - start - 1) / PAGE_SIZE && n > 0
      ensures Linked(mem[..], start, n)
      ensures forall x :: 0 <= x < mem.Length && (x < start || limit <= x) ==> mem[x] == old(mem[x])
    {
      n := 0;
      var p, cur := start, start;
      while p + PAGE_SIZE < limit
        invariant p == PageAt(start, n) < limit && p % 4 == 0 && (n > 0 ==> cur == p - PAGE_SIZE)
        invariant n == 0 ==> p == start
        invariant forall j :: 0 <= j < n ==> mem[PageAt(start, j)] == PageAt(start, j + 1)
        invariant forall x :: 0 <= x < mem.Length && (x < start || limit <= x) ==> mem[x] == old(mem[x])
      {
        cur := p;
        Store(cur, p + PAGE_SIZE);
        p := p + PAGE_SIZE;
        n := n + 1;
      }
      Store(cur, 0);
    }

    // The bucket loop of pool_create: every level empty.
    method InitTable(addr: nat)
      requires addr % 4 == 0 && addr + TABLE_SIZE <= mem.Length
      modifies mem
      ensures forall i :: 0 <= i < BUDY_COUNT ==> Bucket(mem[..], addr, i, [])
      ensures forall x :: 0 <= x < mem.Length && !InTable(addr, x) ==> mem[x] == old(mem[x])
    {
      hide Bucket;
      for i := 0 to BUDY_COUNT
        invariant forall j :: 0 <= j < i ==> Bucket(mem[..], addr, j, [])
        invariant forall x :: 0 <= x < mem.Length && !InTable(addr, x) ==> mem[x] == old(mem[x])
      {
        ghost var m := mem[..];
        InitBucket(addr, i);
        forall j | 0 <= j < i
          ensures Bucket(mem[..], addr, j, [])
        {
          EmptyKept(m, mem[..], addr, i, j);
        }
      }
    }

    method InitBucket(addr: nat, i: nat)
      requires addr % 4 == 0 && addr + TABLE_SIZE <= mem.Length && i < BUDY_COUNT
      modifies mem
      ensures Bucket(mem[..], addr, i, [])
      ensures forall x :: 0 <= x < mem.Length && !(SizeSlot(addr, i) <= x <= HeadSlot(addr, i))
                          ==> mem[x] == old(mem[x])
    {
      hide Size;
      SizeIsWord(i);
      Store(SizeSlot(addr, i), Size(i));
      Store(CountSlot(addr, i), 0);
      Store(HeadSlot(addr, i), 0);
    }

    lemma EmptyKept(m1: Memory, m2: Memory, addr: nat, i: nat, j: nat)
      requires j < i < BUDY_COUNT && Bucket(m1, addr, j, []) && |m2| == |m1|
      requires forall x :: 0 <= x < |m1| && !(SizeSlot(addr, i) <= x <= HeadSlot(addr, i)) ==> m2[x] == m1[x]
      ensures Bucket(m2, addr, j, [])
    {
      hide Size;
      BucketFrame(m1, m2, addr, j, []);
    }

    // The writes of pool_create: the chained pages, then the table with all of them on level 8.
    method WritePool(addr: nat, start: nat, limit: nat) returns (n: nat)
      requires addr % 4 == 0 && start % 4 == 0 && addr + TABLE_SIZE <= start
      requires start + PAGE_SIZE < limit <= mem.Length <= W32
      modifies mem
      ensures n == (limit - start - 1) / PAGE_SIZE && n > 0
      ensures Linked(mem[..], start, n)
      ensures forall i :: 0 <= i < BUDY_COUNT - 1 ==> Bucket(mem[..], addr, i, [])
      ensures mem[SizeSlot(addr, 8)] == Size(8) && mem[CountSlot(addr, 8)] == n && mem[HeadSlot(addr, 8)] == start
      ensures forall x :: 0 <= x < mem.Length && (x < addr || limit <= x) ==> mem[x] == old(mem[x])
    {
      hide Size;
      n := LayPages(start, limit);
      ghost var m := mem[..];
      InitTable(addr);
      ghost var t := mem[..];
      assert Bucket(t, addr, 8, []);
      Store(CountSlot(addr, BUDY_COUNT - 1), n);
      Store(HeadSlot(addr, BUDY_COUNT - 1), start);
      forall i | 0 <= i < BUDY_COUNT - 1
        ensures Bucket(mem[..], addr, i, [])
      {
        EmptyKept(t, mem[..], addr, 8, i);
      }
      LinkedFrame(m, mem[..], start, n);
    }

    // pool_create: the bucket table at addr, the pages behind it; 0 for NULL if memory is too low.
    method Create(addr: nat, size: nat) returns (r: nat)
      requires addr > 0 && addr % 4 == 0 && addr + size <= mem.Length <= W32
      requires size > PAGE_SIZE ==> FirstPage(addr) + PAGE_SIZE < addr + size
      modifies mem, this
      ensures size <= PAGE_SIZE ==> r == 0 && mem[..] == old(mem[..]) && bds == old(bds)
      ensures size > PAGE_SIZE ==> r == addr == bds && Valid() && Now() == PoolSpec.Create(addr, size)
      ensures forall x :: 0 <= x < mem.Length && (x < addr || addr + size <= x) ==> mem[x] == old(mem[x])
    {
      hide Rep, Inv, Run, Valid, Size, InTable, SizeSlot, CountSlot, HeadSlot;
      if size <= PAGE_SIZE {
        return 0;
      }
      var start := RoundUp(addr + TABLE_SIZE, PAGE_SIZE);
      FirstPageAligned(addr);
      var n := WritePool(addr, start, addr + size);
      bds := addr;
      lo, hi := start, start + n * PAGE_SIZE;
      free, live := NO_BLOCKS[BUDY_COUNT - 1 := Run(start, n, PAGE_SIZE)], map[];
      CreatedRep(start, n);
      CreatedValid(addr, size);
      return addr;
    }

    lemma CreatedValid(addr: nat, size: nat)
      requires addr > 0 && addr % 4 == 0 && addr + size <= mem.Length <= W32
      requires FirstPage(addr) + PAGE_SIZE < addr + size
      requires bds == addr && Now() == PoolSpec.Create(addr, size) && Rep(mem[..], bds, free)
      ensures Valid()
    {
      hide Inv, Rep, Run, FreeOk, Tiled, FirstPage, PageCount;
      CreateInv(addr, size);
      InvBounds(Now());
    }

    lemma InvBounds(s: State)
      requires Inv(s)
      ensures s.lo <= s.hi < W32
    {
    }

    lemma CreatedRep(start: nat, n: nat)
      requires free == NO_BLOCKS[BUDY_COUNT - 1 := Run(start, n, PAGE_SIZE)] && n > 0
      requires bds + TABLE_SIZE <= start
      requires Linked(mem[..], start, n)
      requires forall i :: 0 <= i < BUDY_COUNT - 1 ==> Bucket(mem[..], bds, i, [])
      requires mem[SizeSlot(bds, 8)] == Size(8) && mem[CountSlot(bds, 8)] == n && mem[HeadSlot(bds, 8)] == start
      ensures Rep(mem[..], bds, free)
    {
      var R, slot := Run(start, n, PAGE_SIZE), HeadSlot(bds, 8);
      forall k | 0 <= k <= n
        ensures CellAt(slot, R, k) < mem.Length && mem[CellAt(slot, R, k)] == Target(R, k)
      {
        if k > 0 {
          RunAt(start, n, PAGE_SIZE, k - 1);
          var j := k - 1;
          assert mem[PageAt(start, j)] == (if j + 1 < n then PageAt(start, j + 1) else 0);
        }
        if k < n {
          RunAt(start, n, PAGE_SIZE, k);
        }
      }
      forall i | 0 <= i < BUDY_COUNT
        ensures Bucket(mem[..], bds, i, free[i])
      {
        assert i < 8 ==> free[i] == [];
      }
    }
  }

  lemma EightMore4(a: nat)
    ensures a % 4 == 0 ==> (a + HEADER_SIZE) % 4 == 0
  {
  }

  lemma FirstPageAligned(addr: nat)
    ensures FirstPage(addr) % 4 == 0
  {
    var q := (addr + TABLE_SIZE + PAGE_SIZE - 1) / 4096;
    assert FirstPage(addr) == 4 * (1024 * q);
  }

  lemma SizeIsWord(i: nat)
    requires i < BUDY_COUNT
    ensures Size(i) < W32
  {
    SizeTable();
    if i < 8 {
      SizeIncreases(i, 8);
    }
  }

  function Log2(n: nat): nat {
    if n < 2 then 0 else 1 + Log2(n / 2)
  }

  lemma {:induction false} Log2Bounds(n: nat)
    requires n > 0
    ensures Pow2(Log2(n)) <= n < 2 * Pow2(Log2(n))
  {
    if n >= 2 {
      Log2Bounds(n / 2);
    }
  }

  lemma {:induction false} Pow2Size(n: nat)
    ensures n >= 4 ==> Pow2(n) == Size(n - 4)
    ensures n < 4 ==> Pow2(n) <= 8
  {
    if n > 4 {
      Pow2Size(n - 1);
    } else {
      assert Pow2(0) == 1 && Pow2(1) == 2 && Pow2(2) == 4 && Pow2(3) == 8 && Pow2(4) == 16;
    }
  }

  // A level that holds need bytes while the one below does not is the least that does.
  lemma LeastFitting(need: nat, i: nat)
    requires need <= PAGE_SIZE && need <= Size(i) && (i > 0 ==> Size(i - 1) < need)
    ensures i == LevelFor(need)
  {
    var r := LevelFor(need);
    if r < i - 1 {
      SizeIncreases(r, i - 1);
    }
  }
}
