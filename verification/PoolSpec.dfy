// The pool as a transition system: which blocks are free, which are handed out, and what
// pool_create, pool_malloc and pool_free do to them.
module PoolSpec {
  import opened Bits
  import opened Sizes
  import opened Tiling
  import opened FreeLists

  // What the header of a block that is handed out records.
  datatype Block = Block(idx: nat, count: nat) {
    function Bytes(): nat { count * Size(idx) }
  }

  // The page region [lo, hi), its free lists, and the live blocks by the address of their header.
  datatype State = State(lo: nat, hi: nat, free: Lists, live: map<nat, Block>)

  ghost function LivePieces(live: map<nat, Block>): set<Piece> {
    set a | a in live :: Piece(a, live[a].Bytes(), true)
  }

  ghost function Pieces(s: State): set<Piece> {
    FreePieces(s.free) + LivePieces(s.live)
  }

  ghost predicate LiveOk(live: map<nat, Block>) {
    forall a :: a in live ==>
      && live[a].idx < BUDY_COUNT
      && 1 <= live[a].count < 0x1_0000
      && (live[a].count == 1 || live[a].idx == BUDY_COUNT - 1)
      && HalfAligned(live[a].idx, a)
  }

  // The invariant of every reachable state.
  ghost predicate Inv(s: State) {
    && 0 < s.lo <= s.hi < W32
    && Shaped(s.free) && LiveOk(s.live)
    && Tiled(Pieces(s), s.lo, s.hi)
  }

  // ---- pool_create ----

  function FirstPage(addr: nat): nat {
    RoundUp(addr + TABLE_SIZE, PAGE_SIZE)
  }

  // How many pages the creation loop lays out.
  function PageCount(addr: nat, size: nat): nat
    requires FirstPage(addr) + PAGE_SIZE < addr + size
  {
    (addr + size - FirstPage(addr) - 1) / PAGE_SIZE
  }

  function Create(addr: nat, size: nat): State
    requires FirstPage(addr) + PAGE_SIZE < addr + size
  {
    var start, n := FirstPage(addr), PageCount(addr, size);
    State(start, start + n * PAGE_SIZE,
          NO_BLOCKS[BUDY_COUNT - 1 := Run(start, n, PAGE_SIZE)], map[])
  }

  // ---- pool_malloc ----

  // The request with its header, in units of MEM_ALIGN.
  function Needed(size: nat): nat {
    RoundUp(size + HEADER_SIZE, MEM_ALIGN)
  }

  function PagesFor(size: nat): nat {
    RoundUp(Needed(size), PAGE_SIZE) / PAGE_SIZE
  }

  function LevelFrom(need: nat, i: nat): (r: nat)
    requires need <= PAGE_SIZE && i < BUDY_COUNT
    ensures i <= r < BUDY_COUNT && need <= Size(r)
    ensures forall j :: i <= j < r ==> Size(j) < need
    decreases BUDY_COUNT - i
  {
    SizeTable();
    if need <= Size(i) then i else LevelFrom(need, i + 1)
  }

  // The least level whose blocks hold need bytes.
  function LevelFor(need: nat): (r: nat)
    requires need <= PAGE_SIZE
    ensures r < BUDY_COUNT && need <= Size(r)
    ensures forall j :: 0 <= j < r ==> Size(j) < need
  {
    LevelFrom(need, 0)
  }

  function MallocPages(s: State, count: nat): (State, nat) {
    match FirstRun(s.free[BUDY_COUNT - 1], count, PAGE_SIZE, 0)
    case None => (s, 0)
    case Some(k) =>
      var L := s.free[BUDY_COUNT - 1];
      (s.(free := s.free[BUDY_COUNT - 1 := DropRun(L, k, count)],
          live := s.live[L[k] := Block(BUDY_COUNT - 1, count)]),
       L[k] + HEADER_SIZE)
  }

  function Refill(free: Lists, idx: nat): Lists
    requires idx < BUDY_COUNT
  {
    if free[idx] == [] then PullUpper(free, idx) else free
  }

  function MallocBlock(s: State, idx: nat): (State, nat)
    requires idx < BUDY_COUNT
  {
    var f := Refill(s.free, idx);
    if f[idx] == [] then (s.(free := f), 0)
    else (s.(free := PopHead(f, idx), live := s.live[f[idx][0] := Block(idx, 1)]), f[idx][0] + HEADER_SIZE)
  }

  // The new state and the pointer returned, 0 for NULL.
  function Malloc(s: State, size: nat): (State, nat) {
    if size == 0 then (s, 0)
    else if Needed(size) > PAGE_SIZE then MallocPages(s, PagesFor(size))
    else MallocBlock(s, LevelFor(Needed(size)))
  }

  // The header can record the block the request is granted: its page count fits in 16 bits.
  predicate Recorded(s: State, size: nat) {
    Malloc(s, size).1 == 0 || PagesFor(size) < 0x1_0000
  }

  // ---- pool_free, on the header address of a live block ----

  function ReturnBlock(free: Lists, a: nat, b: Block): Lists {
    var f := AddFree(free, b.idx, a, b.count);
    if b.idx < BUDY_COUNT && |f[b.idx]| > SHRINK_THD then Shrink(f, b.idx) else f
  }

  function Free(s: State, a: nat): State
    requires a in s.live
  {
    s.(free := ReturnBlock(s.free, a, s.live[a]), live := s.live - {a})
  }
}
