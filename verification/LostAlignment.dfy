// A history that loses natural alignment: nine pages serve half-page requests in address order, then
// all halves but the first are freed in the same order. The seventeenth free starts the merging, and
// the run it merges starts at an odd half.
module LostAlignment {
  import opened Sizes
  import opened FreeLists
  import opened ListFacts
  import opened SplitMerge
  import opened PoolSpec
  import opened PoolResults
  import opened Alignment

  const ADDR := 4096
  const BYTES := 40961
  const LO := 8192
  const HI := 45056
  const HALF := 2048

  function HalfAt(j: nat): nat { LO + HALF * j }

  function PagesLeft(n: nat): seq<nat>
    requires n <= 18
  {
    var used := (n + 1) / 2;
    Run(LO + PAGE_SIZE * used, 9 - used, PAGE_SIZE)
  }

  // The lists after n requests.
  function Stock(n: nat): Lists
    requires n <= 18
  {
    NO_BLOCKS[8 := PagesLeft(n)][7 := if n % 2 == 1 then [HalfAt(n)] else []]
  }

  function HandedHalves(n: nat): map<nat, Block> {
    if n == 0 then map[] else HandedHalves(n - 1)[HalfAt(n - 1) := Block(7, 1)]
  }

  function Serving(n: nat): State
    requires n <= 18
  {
    State(LO, HI, Stock(n), HandedHalves(n))
  }

  lemma HalvesHeld(n: nat, j: nat)
    ensures HalfAt(j) in HandedHalves(n) <==> j < n
    ensures j < n ==> HandedHalves(n)[HalfAt(j)] == Block(7, 1)
  {
    if n > 0 {
      HalvesHeld(n - 1, j);
    }
  }

  lemma CreatedNine()
    ensures FirstPage(ADDR) == LO && PageCount(ADDR, BYTES) == 9
    ensures PoolSpec.Create(ADDR, BYTES) == Serving(0)
  {
    assert FirstPage(ADDR) == LO;
    assert PageCount(ADDR, BYTES) == 9;
    assert NO_BLOCKS[7 := []] == NO_BLOCKS;
    assert PagesLeft(0) == Run(LO, 9, PAGE_SIZE);
    assert Stock(0) == NO_BLOCKS[8 := Run(LO, 9, PAGE_SIZE)];
  }

  lemma {:induction false} RunTail(b: nat, n: nat, sz: nat)
    requires n > 0
    ensures Run(b, n, sz)[0] == b && Run(b, n, sz)[1..] == Run(b + sz, n - 1, sz)
  {
    if n > 1 {
      RunTail(b, n - 1, sz);
      assert Run(b, n, sz)[1..] == Run(b, n - 1, sz)[1..] + [b + (n - 1) * sz];
      assert b + (n - 1) * sz == b + sz + (n - 2) * sz;
    }
  }

  lemma HalfLevel()
    ensures Needed(2000) == 2008 && LevelFor(2008) == 7 && PagesFor(2000) == 1
  {
    SizeTable();
    LeastLevelIs(2008, 7);
  }

  lemma LeastLevelIs(need: nat, i: nat)
    requires 0 < i < BUDY_COUNT && Size(i - 1) < need <= Size(i) && need <= PAGE_SIZE
    ensures LevelFor(need) == i
  {
    var r := LevelFor(need);
    if r < i - 1 {
      SizeIncreases(r, i - 1);
    }
  }

  // An even request splits the next page, an odd one takes the half left over.
  lemma NextPage(n: nat)
    requires n < 18 && n % 2 == 0
    ensures Stock(n)[8] != [] && Stock(n)[8][0] == HalfAt(n)
    ensures PullUpper(Stock(n), 7)[7] == [HalfAt(n), HalfAt(n + 1)]
    ensures PopHead(PullUpper(Stock(n), 7), 7) == Stock(n + 1)
  {
    hide Run, SplitHead;
    SizeTable();
    var f := Stock(n);
    RunTail(LO + PAGE_SIZE * (n / 2), 9 - n / 2, PAGE_SIZE);
    SplitOntoEmpty(f, 7);
  }

  lemma ServeHalf(n: nat)
    requires n < 18
    ensures Malloc(Serving(n), 2000) == (Serving(n + 1), HalfAt(n) + HEADER_SIZE)
    ensures Recorded(Serving(n), 2000)
  {
    hide LevelFor, Needed, PagesFor, Run, PullUpper, Size;
    HalfLevel();
    if n % 2 == 0 {
      NextPage(n);
    } else {
      assert PopHead(Stock(n), 7) == Stock(n + 1);
    }
  }

  function Requests(n: nat): seq<Op> {
    if n == 0 then [] else [OpMalloc(2000)] + Requests(n - 1)
  }

  lemma {:induction false} RequestsServed(n: nat)
    requires n <= 18
    ensures History(Serving(18 - n), Requests(n), Serving(18))
  {
    hide PoolSpec.Malloc, Serving, Recorded;
    if n > 0 {
      ServeHalf(18 - n);
      RequestsServed(n - 1);
      assert Requests(n)[1..] == Requests(n - 1);
    }
  }

  // After all 18 halves are handed out, halves 1 to m are given back.
  function HeldAfter(m: nat): map<nat, Block> {
    if m == 0 then HandedHalves(18) else HeldAfter(m - 1) - {HalfAt(m)}
  }

  function Returning(m: nat): State {
    State(LO, HI, NO_BLOCKS[7 := Run(HalfAt(1), m, HALF)], HeldAfter(m))
  }

  lemma {:induction false} StillHeld(m: nat, j: nat)
    requires m < j < 18
    ensures HalfAt(j) in HeldAfter(m) && HeldAfter(m)[HalfAt(j)] == Block(7, 1)
  {
    if m == 0 {
      HalvesHeld(18, j);
    } else {
      StillHeld(m - 1, j);
    }
  }

  lemma AllServed()
    ensures Serving(18) == Returning(0)
  {
    assert Run(HalfAt(1), 0, HALF) == [];
    assert NO_BLOCKS[8 := []] == NO_BLOCKS == NO_BLOCKS[7 := []];
  }

  lemma HalfReturned(m: nat)
    requires m < 17
    ensures AddFree(Returning(m).free, 7, HalfAt(m + 1), 1) == NO_BLOCKS[7 := Run(HalfAt(1), m + 1, HALF)]
  {
    SizeTable();
    var L, b := Run(HalfAt(1), m, HALF), HalfAt(m + 1);
    RunAscending(HalfAt(1), m, HALF);
    RunSnoc(HalfAt(1), m, HALF);
    RunOfTwo(b, HALF);
    forall j | 0 <= j < m
      ensures L[j] < b
    {
      assert L[j] in L;
    }
    assert InsertRun(L, b, 1, HALF) == L + [b];
  }

  lemma ReturnHalf(m: nat)
    requires m < 16
    ensures HalfAt(m + 1) in Returning(m).live
    ensures PoolSpec.Free(Returning(m), HalfAt(m + 1)) == Returning(m + 1)
  {
    hide AddFree, Run, HandedHalves;
    StillHeld(m, m + 1);
    HalfReturned(m);
  }

  function Returns(m: nat, n: nat): seq<Op>
    decreases n
  {
    if n == 0 then [] else [OpFree(HalfAt(m + 1))] + Returns(m + 1, n - 1)
  }

  lemma {:induction false} HalvesReturned(m: nat, n: nat)
    requires m + n == 16
    ensures History(Returning(m), Returns(m, n), Returning(16))
    decreases n
  {
    hide PoolSpec.Free, Returning;
    if n > 0 {
      ReturnHalf(m);
      HalvesReturned(m + 1, n - 1);
      assert Returns(m, n)[1..] == Returns(m + 1, n - 1);
    }
  }

  lemma {:induction false} HistoryJoin(s: State, ops: seq<Op>, s1: State, more: seq<Op>, s2: State)
    requires History(s, ops, s1) && History(s1, more, s2)
    ensures History(s, ops + more, s2)
    decreases |ops|
  {
    hide PoolSpec.Malloc, PoolSpec.Free;
    if ops == [] {
      assert ops + more == more;
    } else {
      assert (ops + more)[0] == ops[0] && (ops + more)[1..] == ops[1..] + more;
      HistoryJoin(PoolResults.Step(s, ops[0]), ops[1..], s1, more, s2);
    }
  }

  lemma {:induction false} HeldNatural(m: nat)
    ensures forall a :: a in HeldAfter(m) ==> HeldAfter(m)[a] == Block(7, 1) && OwnAligned(7, a)
  {
    if m == 0 {
      HandedNatural(18);
    } else {
      HeldNatural(m - 1);
    }
  }

  lemma {:induction false} HandedNatural(n: nat)
    ensures forall a :: a in HandedHalves(n) ==> HandedHalves(n)[a] == Block(7, 1) && OwnAligned(7, a)
  {
    if n > 0 {
      HandedNatural(n - 1);
      HalfNatural(n - 1);
    }
  }

  lemma HalfNatural(j: nat)
    ensures OwnAligned(7, HalfAt(j)) && (OwnAligned(8, HalfAt(j)) <==> j % 2 == 0)
  {
    SizeTable();
    AlignedToMeaning(7, HalfAt(j));
    AlignedToMeaning(8, HalfAt(j));
    assert HalfAt(j) == 2048 * (4 + j);
    assert HalfAt(j) == 4096 * (2 + j / 2) + 2048 * (j % 2);
  }

  lemma ReturningNatural(m: nat)
    ensures NaturalPool(Returning(m))
  {
    hide AlignedTo, Run, HeldAfter;
    SizeTable();
    HeldNatural(m);
    HalfNatural(1);
    RunNatural(7, HalfAt(1), m);
  }

  // The history of a reachable, naturally aligned pool in which the next free, of a naturally
  // aligned block, leaves a whole page that does not start on a page boundary.
  lemma BuddyAlignmentFails() returns (ops: seq<Op>, s: State)
    ensures History(PoolSpec.Create(ADDR, BYTES), ops, s) && Inv(s) && NaturalPool(s)
    ensures HalfAt(17) in s.live && s.live[HalfAt(17)] == Block(7, 1) && |s.free[7]| == SHRINK_THD
    ensures 10240 in PoolSpec.Free(s, HalfAt(17)).free[8] && 10240 % Size(8) != 0
    ensures !NaturalPool(PoolSpec.Free(s, HalfAt(17)))
  {
    hide Inv, PoolSpec.Free, Stock, HandedHalves, HeldAfter, AlignedTo, Run, Requests, Returns, NaturalPool;
    ops, s := Requests(18) + Returns(0, 16), Returning(16);
    CreatedNine();
    RequestsServed(18);
    AllServed();
    HalvesReturned(0, 16);
    HistoryJoin(Serving(0), Requests(18), Serving(18), Returns(0, 16), s);
    TilingOverEveryHistory(ADDR, BYTES, ops, s);
    ReturningNatural(16);
    StillHeld(16, 17);
    OddMerge(s);
    SizeTable();
  }

  lemma OddMerge(s: State)
    requires s == Returning(16) && HalfAt(17) in s.live && s.live[HalfAt(17)] == Block(7, 1)
    ensures 10240 in PoolSpec.Free(s, HalfAt(17)).free[8] && !NaturalPool(PoolSpec.Free(s, HalfAt(17)))
  {
    hide AlignedTo, Run, AddFree, MergeAt;
    var f := NO_BLOCKS[7 := Run(HalfAt(1), 17, HALF)];
    HalfReturned(16);
    SizeTable();
    RunAt(HalfAt(1), 17, HALF, 0);
    RunAt(HalfAt(1), 17, HALF, 1);
    HalfNatural(1);
    assert Mergeable(f[7], 7, 0);
    MergedMembers(f, 7, 0);
    ShrinkFromKeepsUpper(MergeAt(f, 7, 0), 7, 0, 10240);
    assert PoolSpec.Free(s, HalfAt(17)).free == Shrink(f, 7) == ShrinkFrom(f, 7, 0);
    NotNatural(ShrinkFrom(f, 7, 0), 8, 10240);
  }
}
