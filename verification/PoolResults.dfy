// What clients of the pool may rely on: after every history, and of every single call.
module PoolResults {
  import opened Arith
  import opened Bits
  import opened Sizes
  import opened Tiling
  import opened FreeLists
  import opened ListFacts
  import opened SplitMerge
  import opened PoolSpec
  import opened PoolFacts

  // ---- Creation ----

  // pool_create lays out whole pages behind the bucket table and strictly inside the region.
  lemma CreateInv(addr: nat, size: nat)
    requires FirstPage(addr) + PAGE_SIZE < addr + size <= W32
    ensures Inv(Create(addr, size))
    ensures var s := Create(addr, size);
            && s.lo % PAGE_SIZE == 0 && addr + TABLE_SIZE <= s.lo && s.hi < addr + size <= s.hi + PAGE_SIZE
            && TotalFree(s.free) == s.hi - s.lo == PageCount(addr, size) * PAGE_SIZE
            && (forall x :: FreeByte(s.free, x) <==> s.lo <= x < s.hi)
  {
    var start, n := FirstPage(addr), PageCount(addr, size);
    var s := Create(addr, size);
    SizeTable();
    DivModUnique(addr + size - start - 1, PAGE_SIZE, n);
    assert start % PAGE_SIZE == 0;
    AlignedToMeaning(8, start);
    AlignedToLower(7, 8, start);
    EmptyOk(start, start + n * PAGE_SIZE);
    RunAlignedFrom(8, start, n);
    AddFreeStep(NO_BLOCKS, 8, start, n, start, start + n * PAGE_SIZE);
    TotalAddFree(NO_BLOCKS, 8, start, n);
    assert InsertRun([], start, n, PAGE_SIZE) == Run(start, n, PAGE_SIZE);
    RunTiled(start, n, PAGE_SIZE);
    assert Pieces(s) == PiecesAt(Run(start, n, PAGE_SIZE), PAGE_SIZE) == FreePieces(s.free);
    forall x
      ensures FreeByte(s.free, x) <==> s.lo <= x < s.hi
    {
      TiledExactlyOnce(Pieces(s), s.lo, s.hi, x);
    }
  }

  lemma EmptyOk(lo: int, hi: int)
    ensures FreePieces(NO_BLOCKS) == {} && FreeOk(NO_BLOCKS, lo, hi) && TotalFree(NO_BLOCKS) == 0
  {
    forall i | 0 <= i < BUDY_COUNT
      ensures NO_BLOCKS[i] == []
    {
    }
    TotalEmpty(BUDY_COUNT);
  }

  lemma TotalEmpty(n: nat)
    requires n <= BUDY_COUNT
    ensures TotalBelow(NO_BLOCKS, n) == 0
  {
    if n > 0 {
      TotalEmpty(n - 1);
      assert NO_BLOCKS[n - 1] == [];
    }
  }

  // ---- Histories ----

  // What a client does: a request, a free by header address, a write of one word.
  datatype Op = OpMalloc(size: nat) | OpFree(header: nat) | OpWrite(header: nat, x: nat, v: u32)

  // The word at x lies in the payload of the block b at address a.
  predicate InPayload(a: nat, b: Block, x: nat) {
    x % 4 == 0 && a + HEADER_SIZE <= x && x + 4 <= a + b.Bytes()
  }

  // A client frees only what is live and writes only to payloads of live blocks.
  predicate Allowed(s: State, op: Op) {
    match op
    case OpMalloc(size) => Recorded(s, size)
    case OpFree(a) => a in s.live
    case OpWrite(a, x, _) => a in s.live && InPayload(a, s.live[a], x)
  }

  function Step(s: State, op: Op): State
    requires Allowed(s, op)
  {
    match op
    case OpMalloc(size) => Malloc(s, size).0
    case OpFree(a) => Free(s, a)
    case OpWrite(_, _, _) => s
  }

  ghost predicate History(s: State, ops: seq<Op>, s': State)
    decreases |ops|
  {
    if ops == [] then s' == s
    else Allowed(s, ops[0]) && History(Step(s, ops[0]), ops[1..], s')
  }

  // Every step of the history is allowed at that point.
  predicate AllAllowed(s: State, ops: seq<Op>)
    decreases |ops|
  {
    ops == [] || (Allowed(s, ops[0]) && AllAllowed(Step(s, ops[0]), ops[1..]))
  }

  lemma {:induction false} HistoryInv(s: State, ops: seq<Op>, s': State)
    requires Inv(s) && History(s, ops, s')
    ensures Inv(s') && s'.lo == s.lo && s'.hi == s.hi
    decreases |ops|
  {
    hide Inv;
    if ops != [] {
      match ops[0] {
        case OpMalloc(size) => MallocInv(s, size);
        case OpFree(a) => FreeInv(s, a);
        case OpWrite(_, _, _) =>
      }
      HistoryInv(Step(s, ops[0]), ops[1..], s');
    }
  }

  // After creation and any history, the free blocks and the live blocks are disjoint and
  // together are exactly the pages laid out at creation.
  lemma TilingOverEveryHistory(addr: nat, size: nat, ops: seq<Op>, s: State)
    requires FirstPage(addr) + PAGE_SIZE < addr + size <= W32
    requires History(Create(addr, size), ops, s)
    ensures Tiled(Pieces(s), FirstPage(addr), FirstPage(addr) + PageCount(addr, size) * PAGE_SIZE)
    ensures Inv(s)
  {
    CreateInv(addr, size);
    HistoryInv(Create(addr, size), ops, s);
  }

  // In every state that meets the invariant, a free block is aligned to half its size.
  lemma FreeBlockAligned(s: State, i: nat, a: nat)
    requires Inv(s) && i < BUDY_COUNT && a in s.free[i]
    ensures a % 16 == 0 && (i >= 1 ==> a % Size(i - 1) == 0)
  {
    Aligned16(i, a);
    AlignedToMeaning(if i == 0 then 0 else i - 1, a);
  }

  // So is a live block; the pointer behind its header is 8 modulo 16.
  lemma LiveBlockAligned(s: State, a: nat)
    requires Inv(s) && a in s.live
    ensures (a + HEADER_SIZE) % 16 == 8
    ensures s.live[a].idx >= 1 ==> a % Size(s.live[a].idx - 1) == 0
  {
    var i := s.live[a].idx;
    Aligned16(i, a);
    AlignedToMeaning(if i == 0 then 0 else i - 1, a);
  }

  lemma Aligned16(i: nat, a: nat)
    requires HalfAligned(i, a)
    ensures a % 16 == 0
  {
    AlignedToLower(0, if i == 0 then 0 else i - 1, a);
  }

  lemma Aligned4(i: nat, a: nat)
    requires HalfAligned(i, a)
    ensures a % 4 == 0 && (a + 4) % 4 == 0
  {
    Aligned16(i, a);
    assert a == 4 * (4 * (a / 16));
  }

  // Each list is strictly ascending with gaps of at least the block size.
  lemma Gaps(s: State, i: nat, k: nat)
    requires Inv(s) && i < BUDY_COUNT && k + 1 < |s.free[i]|
    ensures s.free[i][k] + Size(i) <= s.free[i][k + 1]
  {
    InvFreeOk(s);
    Gap(s.free, i, k, s.lo, s.hi);
  }

  // ---- What a history leaves in a word ----

  // The word at x after the client's writes, in order, if it held v.
  function Written(ops: seq<Op>, x: nat, v: u32): u32
    decreases |ops|
  {
    if ops == [] then v
    else Written(ops[1..], x, if ops[0].OpWrite? && ops[0].x == x then ops[0].v else v)
  }

  // ---- One call ----

  // The byte x belongs to the block b at address a.
  predicate InBlock(a: nat, b: Block, x: int) {
    a <= x < a + b.Bytes()
  }

  // In a tiled pool a byte is free exactly when it lies in the region and in no live block.
  lemma FreeIsNotLive(s: State, x: int)
    requires Inv(s)
    ensures FreeByte(s.free, x)
            <==> s.lo <= x < s.hi && forall a :: a in s.live ==> !InBlock(a, s.live[a], x)
  {
    TiledExactlyOnce(Pieces(s), s.lo, s.hi, x);
    if FreeByte(s.free, x) {
      var t :| t in FreePieces(s.free) && Covers(t, x);
      assert t in Pieces(s);
      forall a | a in s.live
        ensures !InBlock(a, s.live[a], x)
      {
        assert Piece(a, s.live[a].Bytes(), true) in LivePieces(s.live);
      }
    }
    if s.lo <= x < s.hi && forall a :: a in s.live ==> !InBlock(a, s.live[a], x) {
      var t :| t in Pieces(s) && Covers(t, x);
      assert t in FreePieces(s.free);
    }
  }

  // Live blocks share no byte.
  lemma LiveApart(s: State, a: nat, c: nat, x: int)
    requires Inv(s) && a in s.live && c in s.live && a != c && InBlock(a, s.live[a], x)
    ensures !InBlock(c, s.live[c], x)
  {
    var t, u := Piece(a, s.live[a].Bytes(), true), Piece(c, s.live[c].Bytes(), true);
    assert t in LivePieces(s.live) && u in LivePieces(s.live);
    assert Disjoint(t, u);
  }

  // The block a successful call hands out: its least-fitting level, or its page count.
  function BlockFor(size: nat): Block {
    if Needed(size) > PAGE_SIZE then Block(BUDY_COUNT - 1, PagesFor(size))
    else Block(LevelFor(Needed(size)), 1)
  }

  lemma MallocTotals(s: State, size: nat)
    requires Inv(s) && Malloc(s, size).1 != 0
    ensures TotalFree(Malloc(s, size).0.free) + BlockFor(size).Bytes() == TotalFree(s.free)
  {
    SizeTable();
    if Needed(size) > PAGE_SIZE {
      var count := PagesFor(size);
      var k := FirstRun(s.free[BUDY_COUNT - 1], count, PAGE_SIZE, 0).value;
      TotalDrop(s.free, BUDY_COUNT - 1, k, count);
    } else {
      var idx := LevelFor(Needed(size));
      var f := Refill(s.free, idx);
      InvFreeOk(s);
      RefillKeeps(s.free, idx, s.lo, s.hi);
      TotalDrop(f, idx, 0, 1);
      assert DropRun(f[idx], 0, 1) == f[idx][1..];
    }
  }

  // A successful call hands out one new block that was entirely free; no other block moves, and
  // exactly its bytes stop being free.
  lemma MallocSuccess(s: State, size: nat, s': State, p: nat)
    requires Inv(s) && Recorded(s, size) && Malloc(s, size) == (s', p) && p != 0
    ensures p >= HEADER_SIZE && p % 16 == 8
    ensures var a, b := p - HEADER_SIZE, BlockFor(size);
            && a >= s.lo > 0 && a !in s.live && s'.live == s.live[a := b]
            && size + HEADER_SIZE <= b.Bytes() && a + b.Bytes() <= s.hi
            && (forall x :: FreeByte(s'.free, x) <==> FreeByte(s.free, x) && !InBlock(a, b, x))
            && (forall x :: InBlock(a, b, x) ==> FreeByte(s.free, x))
  {
    hide Inv, Malloc, BlockFor, FreeByte, InBlock;
    var a, b := p - HEADER_SIZE, BlockFor(size);
    InvLow(s);
    MallocShape(s, size, s', p);
    MallocInv(s, size);
    NewBlockBytes(s, s', a, b);
  }

  lemma InvLow(s: State)
    requires Inv(s)
    ensures s.lo > 0
  {
  }

  lemma NewBlockBytes(s: State, s': State, a: nat, b: Block)
    requires Inv(s) && Inv(s') && a !in s.live && s'.live == s.live[a := b] && s'.lo == s.lo && s'.hi == s.hi
    ensures s.lo <= a && a + b.Bytes() <= s.hi && (a + HEADER_SIZE) % 16 == 8
    ensures forall x :: FreeByte(s'.free, x) <==> FreeByte(s.free, x) && !InBlock(a, b, x)
    ensures forall x :: InBlock(a, b, x) ==> FreeByte(s.free, x)
  {
    LiveIsClear(s', a);
    LiveBlockAligned(s', a);
    forall x
      ensures FreeByte(s'.free, x) <==> FreeByte(s.free, x) && !InBlock(a, b, x)
      ensures InBlock(a, b, x) ==> FreeByte(s.free, x)
    {
      FreeIsNotLive(s, x);
      FreeIsNotLive(s', x);
      NewBlockIsApart(s, s', a, b, x);
    }
  }

  lemma NewBlockIsApart(s: State, s': State, a: nat, b: Block, x: int)
    requires Inv(s') && a !in s.live && s'.live == s.live[a := b]
    ensures InBlock(a, b, x) ==> forall c :: c in s.live ==> !InBlock(c, s.live[c], x)
    ensures (forall c :: c in s'.live ==> !InBlock(c, s'.live[c], x))
            <==> !InBlock(a, b, x) && forall c :: c in s.live ==> !InBlock(c, s.live[c], x)
  {
    TiledExactlyOnce(Pieces(s'), s'.lo, s'.hi, x);
    assert a in s'.live;
    assert Piece(a, b.Bytes(), true) in LivePieces(s'.live);
    forall c | c in s.live
      ensures c in s'.live && s'.live[c] == s.live[c]
      ensures InBlock(a, b, x) ==> !InBlock(c, s.live[c], x)
    {
      assert Piece(c, s'.live[c].Bytes(), true) in LivePieces(s'.live);
    }
  }

  lemma MallocShape(s: State, size: nat, s': State, p: nat)
    requires Inv(s) && Malloc(s, size) == (s', p) && p != 0
    ensures p >= HEADER_SIZE && p - HEADER_SIZE !in s.live
    ensures s'.live == s.live[p - HEADER_SIZE := BlockFor(size)]
    ensures s'.lo == s.lo && s'.hi == s.hi && size + HEADER_SIZE <= BlockFor(size).Bytes()
  {
    hide Inv, MallocPages, MallocBlock, Needed, PagesFor, LevelFor;
    BlockHolds(size);
    if Needed(size) > PAGE_SIZE {
      ManyPages(size);
      MallocPagesShape(s, PagesFor(size), s', p);
    } else {
      MallocBlockShape(s, LevelFor(Needed(size)), s', p);
    }
  }

  lemma ManyPages(size: nat)
    requires Needed(size) > PAGE_SIZE
    ensures PagesFor(size) > 1
  {
    PagesAre(size);
    var x := Needed(size) + PAGE_SIZE - 1;
    assert x == 4096 * (x / 4096) + x % 4096;
  }

  lemma PagesAre(size: nat)
    ensures PagesFor(size) == (Needed(size) + PAGE_SIZE - 1) / 4096
  {
    hide Needed, RoundUp;
    CeilingDivision(Needed(size));
  }

  lemma CeilingDivision(n: nat)
    ensures RoundUp(n, 4096) / 4096 == (n + 4095) / 4096
  {
    var q := (n + 4095) / 4096;
    assert RoundUp(n, 4096) == 4096 * q;
  }

  // The block chosen for a request holds the request and its header.
  lemma BlockHolds(size: nat)
    ensures size + HEADER_SIZE <= BlockFor(size).Bytes()
  {
    if Needed(size) > PAGE_SIZE {
      SizeTable();
      PagesAre(size);
    }
  }

  lemma MallocPagesShape(s: State, count: nat, s': State, p: nat)
    requires Inv(s) && MallocPages(s, count) == (s', p) && p != 0 && count > 0
    ensures p >= HEADER_SIZE && p - HEADER_SIZE !in s.live
    ensures s'.live == s.live[p - HEADER_SIZE := Block(BUDY_COUNT - 1, count)]
    ensures s'.lo == s.lo && s'.hi == s.hi
  {
    var L := s.free[BUDY_COUNT - 1];
    var k := FirstRun(L, count, PAGE_SIZE, 0).value;
    SizeTable();
    assert Piece(L[k], PAGE_SIZE, false) in FreePieces(s.free);
    FreeNotLive(s, Piece(L[k], PAGE_SIZE, false));
  }

  lemma MallocBlockShape(s: State, idx: nat, s': State, p: nat)
    requires Inv(s) && idx < BUDY_COUNT && MallocBlock(s, idx) == (s', p) && p != 0
    ensures p >= HEADER_SIZE && p - HEADER_SIZE !in s.live
    ensures s'.live == s.live[p - HEADER_SIZE := Block(idx, 1)]
    ensures s'.lo == s.lo && s'.hi == s.hi
  {
    RefillInv(s, idx);
    PopInv(s.(free := Refill(s.free, idx)), idx);
  }

  // n + 1 free pages in a row, that is n links between neighbours, somewhere in the list.
  ghost predicate HasLinkRun(L: seq<nat>, n: nat) {
    exists k: nat :: LinkRun(L, n, k, PAGE_SIZE)
  }

  // A large request fails exactly when no run of one page more than it needs is free.
  lemma LargeFailure(s: State, size: nat)
    requires Needed(size) > PAGE_SIZE
    ensures Malloc(s, size).1 == 0 <==> !HasLinkRun(s.free[BUDY_COUNT - 1], PagesFor(size))
    ensures Malloc(s, size).1 == 0 ==> Malloc(s, size).0 == s
  {
    var r := FirstRun(s.free[BUDY_COUNT - 1], PagesFor(size), PAGE_SIZE, 0);
    if r.Some? {
      assert LinkRun(s.free[BUDY_COUNT - 1], PagesFor(size), r.value, PAGE_SIZE);
    }
  }

  // A small request fails exactly when the least fitting level and all above it are empty.
  lemma SmallFailure(s: State, size: nat)
    requires 0 < size && Needed(size) <= PAGE_SIZE
    ensures Malloc(s, size).1 == 0
            <==> forall m :: LevelFor(Needed(size)) <= m < BUDY_COUNT ==> s.free[m] == []
    ensures Malloc(s, size).1 == 0 ==> Malloc(s, size).0 == s
  {
    var idx := LevelFor(Needed(size));
    if s.free[idx] == [] {
      PullUpperSucceeds(s.free, idx);
      if PullUpper(s.free, idx)[idx] == [] {
        PullUpperNothing(s.free, idx);
      }
    }
  }

  // A request moves and changes no live block.
  lemma MallocKeepsLive(s: State, size: nat, a: nat)
    requires Inv(s) && Recorded(s, size) && a in s.live
    ensures var s' := Malloc(s, size).0; a in s'.live && s'.live[a] == s.live[a]
  {
    hide Inv, FreeByte;
    var s', p := Malloc(s, size).0, Malloc(s, size).1;
    if p != 0 {
      MallocSuccess(s, size, s', p);
    } else if size > 0 {
      if Needed(size) > PAGE_SIZE {
        LargeFailure(s, size);
      } else {
        SmallFailure(s, size);
      }
    }
  }

  // A run of exactly the pages asked for is refused: links are counted, not blocks.
  lemma ExactRunIsRefused()
    ensures exists s: State ::
              && Inv(s) && s.free[BUDY_COUNT - 1] == [8192, 12288] && PagesFor(5000) == 2
              && Malloc(s, 5000) == (s, 0)
  {
    var s := Create(4096, 3 * PAGE_SIZE + 1);
    CreateInv(4096, 3 * PAGE_SIZE + 1);
    RunOfTwo(8192, 4096);
    assert s.free[BUDY_COUNT - 1] == [8192, 12288];
    LargeFailure(s, 5000);
    assert Needed(5000) == 5008;
  }

  // The block is less than twice the rounded request, for every small request.
  lemma SmallBlockIsTight(size: nat)
    requires 0 < size && Needed(size) <= PAGE_SIZE
    ensures Needed(size) <= Size(LevelFor(Needed(size))) < 2 * Needed(size)
  {
    var idx := LevelFor(Needed(size));
    if idx > 0 {
      assert Size(idx - 1) < Needed(size);
    } else {
      assert Needed(size) >= 16;
    }
  }

  // Back on its list, a block's bytes are free again and no others.
  lemma TakeBackBytes(s: State, a: nat)
    requires Inv(s) && a in s.live
    ensures var b := s.live[a];
            forall x :: FreeByte(AddFree(s.free, b.idx, a, b.count), x) <==> FreeByte(s.free, x) || InBlock(a, b, x)
  {
    var b := s.live[a];
    var s1 := s.(free := AddFree(s.free, b.idx, a, b.count), live := s.live - {a});
    TakeBackInv(s, a);
    LiveIsClear(s, a);
    forall x
      ensures FreeByte(s1.free, x) <==> FreeByte(s.free, x) || InBlock(a, b, x)
    {
      FreeIsNotLive(s, x);
      FreeIsNotLive(s1, x);
      assert s.live == s1.live[a := b];
      NewBlockIsApart(s1, s, a, b, x);
    }
  }

  // pool_free gives back exactly the bytes of the block and nothing else changes hands.
  lemma FreeSuccess(s: State, a: nat)
    requires Inv(s) && a in s.live
    ensures Free(s, a).live == s.live - {a}
    ensures TotalFree(Free(s, a).free) == TotalFree(s.free) + s.live[a].Bytes()
    ensures forall x :: FreeByte(Free(s, a).free, x) <==> FreeByte(s.free, x) || InBlock(a, s.live[a], x)
  {
    var b := s.live[a];
    var f := AddFree(s.free, b.idx, a, b.count);
    TotalAddFree(s.free, b.idx, a, b.count);
    TakeBackInv(s, a);
    TakeBackBytes(s, a);
    InvFreeOk(s.(free := f, live := s.live - {a}));
    ShrinkKeeps(f, b.idx, s.lo, s.hi);
  }

  lemma InsertThenRemove(m: map<nat, Block>, a: nat, b: Block)
    requires a !in m
    ensures m[a := b] - {a} == m
  {
  }

  lemma UndoneBytes(s: State, s1: State, a: nat, b: Block)
    requires Inv(s1) && a in s1.live && s1.live[a] == b
    requires forall x :: FreeByte(s1.free, x) <==> FreeByte(s.free, x) && !InBlock(a, b, x)
    requires forall x :: InBlock(a, b, x) ==> FreeByte(s.free, x)
    ensures SameBytes(Free(s1, a).free, s.free)
  {
    FreeSuccess(s1, a);
    forall x
      ensures FreeByte(Free(s1, a).free, x) <==> FreeByte(s.free, x)
    {
      assert FreeByte(Free(s1, a).free, x) <==> FreeByte(s1.free, x) || InBlock(a, b, x);
    }
  }

  // s1 is s with the free block b at a handed out and nothing else changed hands.
  ghost predicate HandedOut(s: State, s1: State, a: nat, b: Block) {
    && a !in s.live && s1.live == s.live[a := b]
    && (forall x :: FreeByte(s1.free, x) <==> FreeByte(s.free, x) && !InBlock(a, b, x))
    && (forall x :: InBlock(a, b, x) ==> FreeByte(s.free, x))
    && TotalFree(s1.free) + b.Bytes() == TotalFree(s.free)
  }

  lemma MallocHandsOut(s: State, size: nat, s1: State, p: nat)
    requires Inv(s) && Recorded(s, size) && Malloc(s, size) == (s1, p) && p != 0
    ensures p >= HEADER_SIZE && HandedOut(s, s1, p - HEADER_SIZE, BlockFor(size)) && Inv(s1)
  {
    MallocSuccess(s, size, s1, p);
    MallocInv(s, size);
    MallocTotals(s, size);
  }

  lemma FreeUndoes(s: State, s1: State, a: nat, b: Block)
    requires Inv(s1) && HandedOut(s, s1, a, b)
    ensures a in s1.live
    ensures Free(s1, a).live == s.live && SameBytes(Free(s1, a).free, s.free)
    ensures TotalFree(Free(s1, a).free) == TotalFree(s.free)
  {
    UndoneBytes(s, s1, a, b);
    InsertThenRemove(s.live, a, b);
    FreeSuccess(s1, a);
  }

  // malloc and then free: the same bytes are free and the same blocks live as before, even where
  // the lists have changed shape.
  lemma MallocThenFree(s: State, size: nat, s1: State, p: nat)
    requires Inv(s) && Recorded(s, size) && Malloc(s, size) == (s1, p) && p != 0
    ensures p >= HEADER_SIZE && p - HEADER_SIZE in s1.live
    ensures var s2 := Free(s1, p - HEADER_SIZE);
            s2.live == s.live && SameBytes(s2.free, s.free) && TotalFree(s2.free) == TotalFree(s.free)
  {
    hide *;
    MallocHandsOut(s, size, s1, p);
    FreeUndoes(s, s1, p - HEADER_SIZE, BlockFor(size));
  }
}
