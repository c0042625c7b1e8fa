// What pool_create, pool_malloc and pool_free do to the lists and the live blocks, in terms of the
// request, the lists before and the block sizes alone.
module PoolLaws {
  import opened Arith
  import opened Sizes
  import opened FreeLists
  import opened ListFacts
  import opened SplitMerge
  import opened PoolSpec
  import opened PoolFacts
  import opened PoolResults

  // ---- pool_create ----

  // Some page starts on a page boundary behind the nine buckets of three words and ends before the
  // region does.
  ghost predicate PageFits(addr: nat, size: nat) {
    exists a: nat :: WholePage(addr, size, a)
  }

  predicate WholePage(addr: nat, size: nat, a: nat) {
    a % 4096 == 0 && addr + 9 * 12 <= a && a + 4096 < addr + size
  }

  // The first page is the least that starts behind the table.
  lemma FirstPageLeast(addr: nat, a: nat)
    ensures FirstPage(addr) % 4096 == 0 && addr + 9 * 12 <= FirstPage(addr)
    ensures a % 4096 == 0 && addr + 9 * 12 <= a ==> FirstPage(addr) <= a
  {
    var f := FirstPage(addr);
    assert f == 4096 * ((addr + 108 + 4095) / 4096);
    if a % 4096 == 0 && addr + 108 <= a < f {
      assert a == 4096 * (a / 4096);
      MulMonotone(4096, a / 4096 + 1, (addr + 108 + 4095) / 4096);
    }
  }

  lemma CreateNeeds(addr: nat, size: nat)
    ensures FirstPage(addr) + PAGE_SIZE < addr + size <==> PageFits(addr, size)
  {
    FirstPageLeast(addr, 0);
    if a: nat :| WholePage(addr, size, a) {
      FirstPageLeast(addr, a);
    }
    if FirstPage(addr) + PAGE_SIZE < addr + size {
      assert WholePage(addr, size, FirstPage(addr));
    }
  }

  // The top list of a new pool holds exactly the pages that fit, all other lists are empty, and
  // nothing is handed out.
  lemma CreatedPages(addr: nat, size: nat)
    requires PageFits(addr, size)
    ensures FirstPage(addr) + PAGE_SIZE < addr + size
    ensures var s := Create(addr, size);
            && (forall a: nat :: a in s.free[8] <==> WholePage(addr, size, a))
            && Ascending(s.free[8]) && s.live == map[]
            && forall i :: 0 <= i < 8 ==> s.free[i] == []
  {
    CreateNeeds(addr, size);
    var start, n := FirstPage(addr), PageCount(addr, size);
    RunAscending(start, n, PAGE_SIZE);
    forall a: nat
      ensures a in Run(start, n, PAGE_SIZE) <==> WholePage(addr, size, a)
    {
      CreatedPage(addr, size, a);
    }
  }

  lemma CreatedPage(addr: nat, size: nat, a: nat)
    requires FirstPage(addr) + PAGE_SIZE < addr + size
    ensures a in Run(FirstPage(addr), PageCount(addr, size), PAGE_SIZE) <==> WholePage(addr, size, a)
  {
    hide FirstPage, Run;
    var start, n := FirstPage(addr), PageCount(addr, size);
    FirstPageLeast(addr, a);
    DivModUnique(addr + size - start - 1, 4096, n);
    var R := Run(start, n, PAGE_SIZE);
    if a in R {
      var j :| 0 <= j < n && R[j] == a;
      RunAt(start, n, PAGE_SIZE, j);
      PageBoundary(start, j);
    }
    if WholePage(addr, size, a) {
      var j := (a - start) / 4096;
      PageIndex(start, a);
      RunAt(start, n, PAGE_SIZE, j);
      assert R[j] == a;
    }
  }

  lemma PageBoundary(start: nat, j: nat)
    requires start % 4096 == 0
    ensures (start + j * 4096) % 4096 == 0
  {
  }

  lemma PageIndex(start: nat, a: nat)
    requires start % 4096 == 0 && a % 4096 == 0 && start <= a
    ensures a == start + (a - start) / 4096 * 4096
  {
  }

  // ---- pool_malloc: when it fails ----

  // A block of level m holds the request and its header.
  predicate Fits(size: nat, m: nat) {
    m < 9 && size + 8 <= Size(m)
  }

  lemma SizeByEight(m: nat)
    ensures Size(m) % 8 == 0
  {
    if m > 0 {
      SizeByEight(m - 1);
    }
  }

  // Rounding a request up to 8 makes no difference to the levels it fits.
  lemma NeededFits(size: nat, p: nat)
    requires p % 8 == 0
    ensures Needed(size) <= p <==> size + 8 <= p
  {
    var n := (size + 15) / 8;
    assert Needed(size) == 8 * n;
    assert p == 8 * (p / 8);
  }

  lemma FitsLevel(size: nat, m: nat)
    requires size + 8 <= 4096 && m < 9
    ensures Needed(size) <= PAGE_SIZE
    ensures Fits(size, m) <==> LevelFor(Needed(size)) <= m
  {
    SizeByEight(m);
    NeededFits(size, Size(m));
    NeededFits(size, 4096);
    var r := LevelFor(Needed(size));
    if r < m {
      SizeIncreases(r, m);
    }
  }

  // The pages a request and its header take.
  function PagesTaken(size: nat): nat { (size + 8 + 4095) / 4096 }

  lemma PagesForIs(size: nat)
    ensures PagesFor(size) == PagesTaken(size)
  {
    hide Needed, PagesFor;
    PagesAre(size);
    var q := PagesTaken(size);
    PageMultiple(q);
    PageMultiple(q - 1);
    NeededFits(size, 4096 * q);
    NeededFits(size, 4096 * (q - 1));
    SamePages(Needed(size), size + 8, q);
  }

  lemma PageMultiple(q: nat)
    ensures 4096 * q % 8 == 0
  {
    DivModUnique(4096 * q, 8, 512 * q);
  }

  lemma SamePages(n: nat, t: nat, q: nat)
    requires t > 0 && q == (t + 4095) / 4096
    requires n <= 4096 * q <==> t <= 4096 * q
    requires n <= 4096 * (q - 1) <==> t <= 4096 * (q - 1)
    ensures (n + 4095) / 4096 == q
  {
  }

  // A request fails exactly when it is empty, or no level that holds it has a block, or, beyond a
  // page, there is no run of one page more than it takes. Then it changes nothing.
  lemma MallocFails(s: State, size: nat)
    ensures Malloc(s, size).1 == 0
            <==> if size == 0 then true
                 else if size + 8 <= 4096 then forall m: nat :: Fits(size, m) ==> s.free[m] == []
                 else !HasLinkRun(s.free[8], PagesTaken(size))
    ensures Malloc(s, size).1 == 0 ==> Malloc(s, size).0 == s
  {
    hide Needed, LevelFor, Fits, MallocPages, MallocBlock, HasLinkRun, PagesTaken, PagesFor;
    NeededFits(size, 4096);
    if size == 0 {
    } else if size + 8 <= 4096 {
      SmallFailure(s, size);
      forall m | 0 <= m < 9
        ensures Fits(size, m) <==> LevelFor(Needed(size)) <= m
      {
        FitsLevel(size, m);
      }
      FitsBelowNine(size);
    } else {
      LargeFailure(s, size);
      PagesForIs(size);
    }
  }

  lemma FitsBelowNine(size: nat)
    ensures forall m: nat :: Fits(size, m) ==> m < 9
  {
  }

  // ---- pool_malloc: what it hands out ----

  // i is the least level that holds the request.
  predicate LeastLevelFor(size: nat, i: nat) {
    Fits(size, i) && (i > 0 ==> !Fits(size, i - 1))
  }

  // What a small request does, i being the least level that holds it and j the least from i up that
  // has a block: the first block of level j is cut down, its lowest piece of level i is handed out.
  lemma SmallRequest(s: State, size: nat, i: nat, j: nat)
    requires 0 < size && LeastLevelFor(size, i) && i <= j < 9 && s.free[j] != []
    requires forall m :: i <= m < j ==> s.free[m] == []
    ensures var (s', p) := Malloc(s, size); var a := s.free[j][0];
            && p == a + 8 && s'.live == s.live[a := Block(i, 1)] && s'.lo == s.lo && s'.hi == s.hi
            && s'.free[j] == s.free[j][1..]
            && (forall m :: i <= m < j ==> s'.free[m] == [a + Size(m)])
            && (forall m :: 0 <= m < i || j < m < 9 ==> s'.free[m] == s.free[m])
  {
    hide Needed, LevelFor, Fits, PullUpper, Size;
    LevelIs(size, i);
    if i < j {
      PullUpperExact(s.free, i, j);
    }
  }

  lemma LevelIs(size: nat, i: nat)
    requires LeastLevelFor(size, i)
    ensures size + 8 <= 4096 && Needed(size) <= PAGE_SIZE && LevelFor(Needed(size)) == i
  {
    SizeTable();
    if i < 8 {
      SizeIncreases(i, 8);
    }
    FitsLevel(size, i);
    if i > 0 {
      FitsLevel(size, i - 1);
    }
  }

  // What a large request does, k being the first entry of the first run of one page more than it
  // takes: the pages taken leave the top list and become one block.
  lemma LargeRequest(s: State, size: nat, k: nat)
    requires size + 8 > 4096
    requires var L, n := s.free[8], PagesTaken(size);
             LinkRun(L, n, k, 4096) && forall j :: 0 <= j < k ==> !LinkRun(L, n, j, 4096)
    ensures var L, n := s.free[8], PagesTaken(size);
            Malloc(s, size) == (State(s.lo, s.hi, s.free[8 := L[..k] + L[k + n..]], s.live[L[k] := Block(8, n)]),
                                L[k] + 8)
  {
    hide Needed, PagesTaken, PagesFor, LinkRun;
    NeededFits(size, 4096);
    PagesForIs(size);
    var r := FirstRun(s.free[8], PagesTaken(size), 4096, 0);
    assert r.Some? && !(r.value < k) && !(k < r.value);
  }

  // ---- pool_free ----

  // The address x is that of one of the count blocks of the freed block.
  ghost predicate PartOf(x: nat, a: nat, b: Block) {
    exists k: nat :: k < b.count && x == a + k * Size(b.idx)
  }

  lemma {:induction false} RunHas(a: nat, n: nat, sz: nat, x: nat)
    ensures x in Run(a, n, sz) <==> exists k: nat :: k < n && x == a + k * sz
  {
    if k: nat :| k < n && x == a + k * sz {
      RunAt(a, n, sz, k);
      assert Run(a, n, sz)[k] == x;
    }
    if x in Run(a, n, sz) {
      var k :| 0 <= k < n && Run(a, n, sz)[k] == x;
      RunAt(a, n, sz, k);
    }
  }

  // A free puts the blocks back where they belong in order. Up to 16 blocks of the level, that is
  // all; beyond, no neighbours that may merge are left from that level up, and the levels below are
  // as before.
  lemma FreeLaws(s: State, a: nat)
    requires Inv(s) && a in s.live
    ensures var b, t := s.live[a], Free(s, a);
            && t.live == s.live - {a} && t.lo == s.lo && t.hi == s.hi
            && (|s.free[b.idx]| + b.count <= 16 ==>
                  && (forall x :: x in t.free[b.idx] <==> x in s.free[b.idx] || PartOf(x, a, b))
                  && Ascending(t.free[b.idx]) && |t.free[b.idx]| == |s.free[b.idx]| + b.count
                  && forall m :: 0 <= m < 9 && m != b.idx ==> t.free[m] == s.free[m])
            && (|s.free[b.idx]| + b.count > 16 ==>
                  && (forall m :: b.idx <= m < 8 ==> Saturated(t.free[m], m))
                  && (forall m :: 0 <= m < b.idx ==> t.free[m] == s.free[m]))
  {
    hide Run, InsertRun, Inv, Saturated, Shrink, FreePieces;
    var b := s.live[a];
    var f := AddFree(s.free, b.idx, a, b.count);
    LiveLevel(s, a);
    TakeBackInv(s, a);
    InvFreeOk(s.(free := f, live := s.live - {a}));
    InsertRunMembers(s.free[b.idx], a, b.count, Size(b.idx));
    InsertedLength(s.free[b.idx], a, b.count, Size(b.idx));
    forall x
      ensures x in Run(a, b.count, Size(b.idx)) <==> PartOf(x, a, b)
    {
      RunHas(a, b.count, Size(b.idx), x);
    }
    ShrinkSaturates(f, b.idx, s.lo, s.hi);
    ShrinkKeeps(f, b.idx, s.lo, s.hi);
  }

  lemma LiveLevel(s: State, a: nat)
    requires Inv(s) && a in s.live
    ensures s.live[a].idx < 9
  {
  }

  lemma InsertedLength(L: seq<nat>, b: nat, n: nat, sz: nat)
    ensures |InsertRun(L, b, n, sz)| == |L| + n
  {
  }
}
