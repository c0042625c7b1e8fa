// The invariant of the pool: one step at a time, then over every history.
module PoolFacts {
  import opened Arith
  import opened Sizes
  import opened Tiling
  import opened FreeLists
  import opened ListFacts
  import opened SplitMerge
  import opened PoolSpec

  lemma RunAlignedFrom(idx: nat, b: nat, n: nat)
    requires HalfAligned(idx, b)
    ensures RunAligned(idx, b, n)
    ensures HalfAligned(idx, b + n * Size(idx))
  {
    if n > 0 {
      RunAlignedFrom(idx, b, n - 1);
      RunSnoc(b, n - 1, Size(idx));
      AlignedToPlus(if idx == 0 then 0 else idx - 1, idx, b + (n - 1) * Size(idx));
    }
  }

  // A run of links is a run of adjacent blocks.
  lemma {:induction false} LinkRunIsRun(L: seq<nat>, n: nat, k: nat, sz: nat)
    requires LinkRun(L, n, k, sz)
    ensures L[k..k + n] == Run(L[k], n, sz)
    ensures L[k + n] == L[k] + n * sz
  {
    if n > 0 {
      LinkRunIsRun(L, n - 1, k, sz);
      assert L[k..k + n] == L[k..k + n - 1] + [L[k + n - 1]];
      RunSnoc(L[k], n - 1, sz);
    }
  }

  lemma LiveInsert(live: map<nat, Block>, a: nat, b: Block)
    requires a !in live
    ensures LivePieces(live[a := b]) == LivePieces(live) + {Piece(a, b.Bytes(), true)}
  {
    var m := live[a := b];
    forall t
      ensures t in LivePieces(m) <==> t in LivePieces(live) + {Piece(a, b.Bytes(), true)}
    {
      if t in LivePieces(live) {
        assert t.start in m;
      }
      assert a in m;
    }
  }

  lemma LiveRemove(live: map<nat, Block>, a: nat)
    requires a in live
    ensures LivePieces(live - {a}) == LivePieces(live) - {Piece(a, live[a].Bytes(), true)}
  {
    var m := live - {a};
    forall t
      ensures t in LivePieces(m) <==> t in LivePieces(live) - {Piece(a, live[a].Bytes(), true)}
    {
      if t in LivePieces(live) - {Piece(a, live[a].Bytes(), true)} {
        assert t.start in m;
      }
    }
  }

  lemma PackedSubset(P: set<Piece>, Q: set<Piece>, lo: int, hi: int)
    requires Packed(P, lo, hi) && Q <= P
    ensures Packed(Q, lo, hi)
  {
  }

  lemma InvFreeOk(s: State)
    requires Inv(s)
    ensures FreeOk(s.free, s.lo, s.hi)
  {
    PackedSubset(Pieces(s), FreePieces(s.free), s.lo, s.hi);
  }

  lemma LiveByteNotFree(f: Lists, live: map<nat, Block>, lo: int, hi: int, u: Piece, z: int)
    requires Packed(FreePieces(f) + LivePieces(live), lo, hi) && u in LivePieces(live) && Covers(u, z)
    ensures !FreeByte(f, z)
  {
    forall t | t in FreePieces(f)
      ensures !Covers(t, z)
    {
      assert Disjoint(t, u);
    }
  }

  // Re-cutting the free bytes into other free pieces keeps the tiling.
  lemma RecutTiled(f: Lists, g: Lists, live: map<nat, Block>, lo: int, hi: int)
    requires Tiled(FreePieces(f) + LivePieces(live), lo, hi)
    requires Packed(FreePieces(g), lo, hi) && SameBytes(f, g)
    ensures Tiled(FreePieces(g) + LivePieces(live), lo, hi)
  {
    var P, Q := FreePieces(f) + LivePieces(live), FreePieces(g) + LivePieces(live);
    forall t, u | t in FreePieces(g) && u in LivePieces(live)
      ensures Disjoint(t, u)
    {
      var z := if t.start <= u.start then u.start else t.start;
      if Covers(u, z) {
        LiveByteNotFree(f, live, lo, hi, u, z);
        assert !FreeByte(g, z);
        assert !Covers(t, z);
      }
    }
    forall x | lo <= x < hi
      ensures CoveredBy(Q, x)
    {
      assert CoveredBy(P, x);
      var t :| t in P && Covers(t, x);
      if t in LivePieces(live) {
        assert t in Q;
      } else {
        assert FreeByte(f, x);
        var v :| v in FreePieces(g) && Covers(v, x);
        assert v in Q;
      }
    }
  }

  // A free block's address is no live block's.
  lemma FreeNotLive(s: State, t: Piece)
    requires Inv(s) && t in FreePieces(s.free)
    ensures t.start !in s.live
  {
    forall a | a in s.live
      ensures a != t.start
    {
      assert Piece(a, s.live[a].Bytes(), true) in LivePieces(s.live);
    }
  }

  // Handing out the adjacent free pieces A as one live block.
  lemma HandOut(s: State, f: Lists, A: set<Piece>, a: nat, b: Block)
    requires Inv(s) && Shaped(f)
    requires b.idx < BUDY_COUNT && 1 <= b.count < 0x1_0000 && HalfAligned(b.idx, a)
    requires b.count == 1 || b.idx == BUDY_COUNT - 1
    requires A <= FreePieces(s.free) && FreePieces(f) == FreePieces(s.free) - A
    requires Tiled(A, a, a + b.Bytes())
    requires a !in s.live && b.Bytes() > 0
    ensures Inv(s.(free := f, live := s.live[a := b]))
  {
    var B := {Piece(a, b.Bytes(), true)};
    var s' := s.(free := f, live := s.live[a := b]);
    SingleTiled(a, b.Bytes(), true);
    LiveInsert(s.live, a, b);
    ReplaceTiled(Pieces(s), A, B, s.lo, s.hi, a, a + b.Bytes());
    assert Pieces(s') == Pieces(s) - A + B;
  }

  lemma BytesPositive(b: Block)
    requires b.count >= 1
    ensures b.Bytes() >= Size(b.idx)
  {
    MulMonotone(Size(b.idx), 1, b.count);
  }

  lemma MallocPagesInv(s: State, count: nat)
    requires Inv(s) && 1 <= count < 0x1_0000
    ensures Inv(MallocPages(s, count).0)
  {
    var L := s.free[BUDY_COUNT - 1];
    var r := FirstRun(L, count, PAGE_SIZE, 0);
    if r.Some? {
      var k, b := r.value, Block(BUDY_COUNT - 1, count);
      var f: Lists := s.free[BUDY_COUNT - 1 := DropRun(L, k, count)];
      SizeTable();
      InvFreeOk(s);
      LinkRunIsRun(L, count, k, PAGE_SIZE);
      DropStep(s.free, BUDY_COUNT - 1, k, count, s.lo, s.hi);
      RunTiled(L[k], count, PAGE_SIZE);
      assert Piece(L[k], PAGE_SIZE, false) in FreePieces(s.free);
      FreeNotLive(s, Piece(L[k], PAGE_SIZE, false));
      BytesPositive(b);
      HandOut(s, f, PiecesAt(Run(L[k], count, PAGE_SIZE), PAGE_SIZE), L[k], b);
    }
  }

  lemma RefillKeeps(free: Lists, idx: nat, lo: int, hi: int)
    requires idx < BUDY_COUNT && FreeOk(free, lo, hi)
    ensures FreeOk(Refill(free, idx), lo, hi)
    ensures SameBytes(Refill(free, idx), free)
    ensures TotalFree(Refill(free, idx)) == TotalFree(free)
  {
    PullUpperKeeps(free, idx, lo, hi);
  }

  lemma RefillInv(s: State, idx: nat)
    requires Inv(s) && idx < BUDY_COUNT
    ensures Inv(s.(free := Refill(s.free, idx)))
  {
    InvFreeOk(s);
    RefillKeeps(s.free, idx, s.lo, s.hi);
    RecutTiled(s.free, Refill(s.free, idx), s.live, s.lo, s.hi);
  }

  lemma PopInv(s: State, idx: nat)
    requires Inv(s) && idx < BUDY_COUNT && s.free[idx] != []
    ensures s.free[idx][0] !in s.live
    ensures Inv(s.(free := PopHead(s.free, idx), live := s.live[s.free[idx][0] := Block(idx, 1)]))
  {
    var a := s.free[idx][0];
    InvFreeOk(s);
    PopStep(s.free, idx, s.lo, s.hi);
    SingleTiled(a, Size(idx), false);
    FreeNotLive(s, Piece(a, Size(idx), false));
    HandOut(s, PopHead(s.free, idx), {Piece(a, Size(idx), false)}, a, Block(idx, 1));
  }

  lemma MallocBlockInv(s: State, idx: nat)
    requires Inv(s) && idx < BUDY_COUNT
    ensures Inv(MallocBlock(s, idx).0)
  {
    RefillInv(s, idx);
    if Refill(s.free, idx)[idx] != [] {
      PopInv(s.(free := Refill(s.free, idx)), idx);
    }
  }

  // The header's 16-bit page count is wide enough for every run a pool below 65536 pages can hold.
  lemma RunFits(s: State, count: nat, k: nat)
    requires Inv(s) && s.hi - s.lo < 0x1_0000 * PAGE_SIZE && LinkRun(s.free[BUDY_COUNT - 1], count, k, PAGE_SIZE)
    ensures count < 0x1_0000
  {
    var L := s.free[BUDY_COUNT - 1];
    SizeTable();
    LinkRunIsRun(L, count, k, PAGE_SIZE);
    assert Piece(L[k], PAGE_SIZE, false) in FreePieces(s.free);
    assert Piece(L[k + count], PAGE_SIZE, false) in FreePieces(s.free);
  }

  // So a smaller pool records every request.
  lemma SmallPoolRecords(s: State, size: nat)
    requires Inv(s) && s.hi - s.lo < 0x1_0000 * PAGE_SIZE
    ensures Recorded(s, size)
  {
    var count := PagesFor(size);
    if size > 0 && Needed(size) > PAGE_SIZE {
      var r := FirstRun(s.free[BUDY_COUNT - 1], count, PAGE_SIZE, 0);
      if r.Some? {
        RunFits(s, count, r.value);
      }
    } else {
      OnePage(Needed(size));
    }
  }

  lemma OnePage(need: nat)
    requires need <= PAGE_SIZE
    ensures RoundUp(need, PAGE_SIZE) / PAGE_SIZE <= 1
  {
  }

  // pool_malloc keeps the invariant, whatever the request, if the header can record it.
  lemma MallocInv(s: State, size: nat)
    requires Inv(s) && Recorded(s, size)
    ensures Inv(Malloc(s, size).0)
  {
    if size == 0 {
    } else if Needed(size) > PAGE_SIZE {
      var count := PagesFor(size);
      var r := FirstRun(s.free[BUDY_COUNT - 1], count, PAGE_SIZE, 0);
      if r.Some? {
        MallocPagesInv(s, count);
      }
    } else {
      MallocBlockInv(s, LevelFor(Needed(size)));
    }
  }

  // What is free never meets what is live.
  lemma LiveIsClear(s: State, a: nat)
    requires Inv(s) && a in s.live
    ensures ClearOf(s.free, a, a + s.live[a].Bytes())
    ensures s.lo <= a && a + s.live[a].Bytes() <= s.hi
  {
    var u := Piece(a, s.live[a].Bytes(), true);
    assert u in LivePieces(s.live);
    forall t | t in FreePieces(s.free)
      ensures t.start + t.size <= a || a + s.live[a].Bytes() <= t.start
    {
      assert Disjoint(t, u);
    }
  }

  // Putting a live block back on its list.
  lemma TakeBackInv(s: State, a: nat)
    requires Inv(s) && a in s.live
    ensures var b := s.live[a];
            Inv(s.(free := AddFree(s.free, b.idx, a, b.count), live := s.live - {a}))
  {
    var b := s.live[a];
    var A, B := {Piece(a, b.Bytes(), true)}, PiecesAt(Run(a, b.count, Size(b.idx)), Size(b.idx));
    var s' := s.(free := AddFree(s.free, b.idx, a, b.count), live := s.live - {a});
    InvFreeOk(s);
    RunAlignedFrom(b.idx, a, b.count);
    LiveIsClear(s, a);
    AddFreeStep(s.free, b.idx, a, b.count, s.lo, s.hi);
    LiveRemove(s.live, a);
    BytesPositive(b);
    SingleTiled(a, b.Bytes(), true);
    RunTiled(a, b.count, Size(b.idx));
    ReplaceTiled(Pieces(s), A, B, s.lo, s.hi, a, a + b.Bytes());
    assert Pieces(s') == Pieces(s) - A + B;
  }

  // pool_free keeps the invariant.
  lemma FreeInv(s: State, a: nat)
    requires Inv(s) && a in s.live
    ensures Inv(Free(s, a))
  {
    var b := s.live[a];
    var f := AddFree(s.free, b.idx, a, b.count);
    var s1 := s.(free := f, live := s.live - {a});
    TakeBackInv(s, a);
    if |f[b.idx]| > SHRINK_THD {
      InvFreeOk(s1);
      ShrinkKeeps(f, b.idx, s.lo, s.hi);
      RecutTiled(f, Shrink(f, b.idx), s1.live, s.lo, s.hi);
    }
  }
}
