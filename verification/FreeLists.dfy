// The nine free lists as sequences of block addresses, and what each list operation of
// rtlib/libs/mem.c does to them.
module FreeLists {
  import opened Options
  import opened Sizes
  import opened Tiling

  type Lists = f: seq<seq<nat>> | |f| == BUDY_COUNT witness [[], [], [], [], [], [], [], [], []]

  const NO_BLOCKS: Lists := [[], [], [], [], [], [], [], [], []]

  ghost predicate Ascending(L: seq<nat>) {
    forall j, k :: 0 <= j < k < |L| ==> L[j] < L[k]
  }

  // ---- Runs of adjacent blocks ----

  function Run(b: nat, n: nat, sz: nat): (r: seq<nat>)
    ensures |r| == n
  {
    if n == 0 then [] else Run(b, n - 1, sz) + [b + (n - 1) * sz]
  }

  // ---- pool_add_free: sorted insertion of a run ----

  // The index at which the walk over nodes below b stops.
  function PosFrom(L: seq<nat>, b: nat, k: nat): (r: nat)
    requires k <= |L|
    ensures k <= r <= |L|
    ensures forall j :: k <= j < r ==> L[j] < b
    ensures r < |L| ==> b <= L[r]
    decreases |L| - k
  {
    if k < |L| && L[k] < b then PosFrom(L, b, k + 1) else k
  }

  function InsertAt(L: seq<nat>, k: nat, R: seq<nat>): seq<nat>
    requires k <= |L|
  {
    L[..k] + R + L[k..]
  }

  function InsertRun(L: seq<nat>, b: nat, n: nat, sz: nat): seq<nat> {
    InsertAt(L, PosFrom(L, b, 0), Run(b, n, sz))
  }

  function AddFree(free: Lists, idx: nat, b: nat, n: nat): Lists {
    if idx >= BUDY_COUNT then free
    else free[idx := InsertRun(free[idx], b, n, Size(idx))]
  }

  // ---- pool_pull_upper: recursive split ----

  function PopHead(free: Lists, idx: nat): Lists
    requires idx < BUDY_COUNT && free[idx] != []
  {
    free[idx := free[idx][1..]]
  }

  function SplitHead(free: Lists, idx: nat): Lists
    requires idx + 1 < BUDY_COUNT && free[idx + 1] != []
  {
    AddFree(PopHead(free, idx + 1), idx, free[idx + 1][0], 2)
  }

  function PullUpper(free: Lists, idx: nat): Lists
    decreases BUDY_COUNT - idx
  {
    if idx + 1 >= BUDY_COUNT then free
    else
      var f := if free[idx + 1] == [] then PullUpper(free, idx + 1) else free;
      if f[idx + 1] == [] then f else SplitHead(f, idx)
  }

  // ---- pool_try_shrink: merging neighbours ----

  predicate Mergeable(L: seq<nat>, idx: nat, k: nat) {
    k + 1 < |L| && L[k + 1] == L[k] + Size(idx) && OwnAligned(idx, L[k])
  }

  function DropPair(L: seq<nat>, k: nat): seq<nat>
    requires k + 1 < |L|
  {
    L[..k] + L[k + 2..]
  }

  function TakePair(free: Lists, idx: nat, k: nat): Lists
    requires idx < BUDY_COUNT && k + 1 < |free[idx]|
  {
    free[idx := DropPair(free[idx], k)]
  }

  function MergeAt(free: Lists, idx: nat, k: nat): Lists
    requires idx + 1 < BUDY_COUNT && k + 1 < |free[idx]|
  {
    AddFree(TakePair(free, idx, k), idx + 1, free[idx][k], 1)
  }

  // The scan of one level from index k on; a merge keeps the scan where it is.
  function ShrinkFrom(free: Lists, idx: nat, k: nat): Lists
    requires idx + 1 < BUDY_COUNT && k <= |free[idx]|
    decreases |free[idx]| - k
  {
    if k == |free[idx]| then free
    else if Mergeable(free[idx], idx, k) then ShrinkFrom(MergeAt(free, idx, k), idx, k)
    else ShrinkFrom(free, idx, k + 1)
  }

  function Shrink(free: Lists, idx: nat): Lists
    decreases BUDY_COUNT - idx
  {
    if idx + 1 >= BUDY_COUNT then free else Shrink(ShrinkFrom(free, idx, 0), idx + 1)
  }

  // ---- pool_alloc_continues: first fit over links ----

  // n consecutive links of adjacent blocks, that is n + 1 adjacent blocks, starting at index k.
  predicate LinkRun(L: seq<nat>, n: nat, k: nat, sz: nat) {
    k + n < |L| && forall j :: k <= j < k + n ==> L[j + 1] == L[j] + sz
  }

  function FirstRun(L: seq<nat>, n: nat, sz: nat, k: nat): (r: Option<nat>)
    ensures r.Some? ==> k <= r.value && LinkRun(L, n, r.value, sz)
    ensures r.Some? ==> forall j :: k <= j < r.value ==> !LinkRun(L, n, j, sz)
    ensures r.None? ==> forall j :: k <= j ==> !LinkRun(L, n, j, sz)
    decreases |L| - k
  {
    if k >= |L| then None
    else if LinkRun(L, n, k, sz) then Some(k)
    else FirstRun(L, n, sz, k + 1)
  }

  function DropRun(L: seq<nat>, k: nat, n: nat): seq<nat>
    requires k + n <= |L|
  {
    L[..k] + L[k + n..]
  }

  // ---- Pieces ----

  ghost function PiecesAt(L: seq<nat>, n: nat): set<Piece> {
    set a | a in L :: Piece(a, n, false)
  }

  ghost function FreePieces(free: Lists): set<Piece> {
    set i, a | 0 <= i < BUDY_COUNT && a in free[i] :: Piece(a, Size(i), false)
  }

  // A byte that belongs to some free block.
  ghost predicate FreeByte(free: Lists, x: int) {
    CoveredBy(FreePieces(free), x)
  }

  ghost predicate Shaped(free: Lists) {
    && (forall i :: 0 <= i < BUDY_COUNT ==> Ascending(free[i]))
    && (forall i, a :: 0 <= i < BUDY_COUNT && a in free[i] ==> HalfAligned(i, a))
  }

  // The invariant of the free lists alone.
  ghost predicate FreeOk(free: Lists, lo: int, hi: int) {
    Shaped(free) && Packed(FreePieces(free), lo, hi)
  }

  lemma UpdateLevel(free: Lists, i: nat, L: seq<nat>)
    requires i < BUDY_COUNT
    ensures FreePieces(free[i := L]) == FreePieces(free) - PiecesAt(free[i], Size(i)) + PiecesAt(L, Size(i))
    ensures PiecesAt(free[i], Size(i)) <= FreePieces(free)
  {
    var f := free[i := L];
    forall t
      ensures t in FreePieces(f)
              <==> t in FreePieces(free) - PiecesAt(free[i], Size(i)) + PiecesAt(L, Size(i))
    {
      if t in FreePieces(f) {
        var j, a :| 0 <= j < BUDY_COUNT && a in f[j] && t == Piece(a, Size(j), false);
        if j < i {
          SizeIncreases(j, i);
        } else if j > i {
          SizeIncreases(i, j);
        }
      }
      if t in FreePieces(free) - PiecesAt(free[i], Size(i)) {
        var j, a :| 0 <= j < BUDY_COUNT && a in free[j] && t == Piece(a, Size(j), false);
        assert j != i;
        assert a in f[j];
      }
      if t in PiecesAt(L, Size(i)) {
        assert t.start in f[i];
      }
    }
  }
}
