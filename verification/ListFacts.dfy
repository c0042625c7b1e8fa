// How the single list operations change the set of free pieces.
module ListFacts {
  import opened Sizes
  import opened Tiling
  import opened FreeLists

  // No free piece meets [x, y).
  ghost predicate ClearOf(free: Lists, x: int, y: int) {
    forall t :: t in FreePieces(free) ==> t.start + t.size <= x || y <= t.start
  }

  ghost predicate RunAligned(idx: nat, b: nat, n: nat) {
    forall a :: a in Run(b, n, Size(idx)) ==> HalfAligned(idx, a)
  }

  lemma AlignedMember(idx: nat, b: nat, n: nat, a: nat)
    requires RunAligned(idx, b, n) && a in Run(b, n, Size(idx))
    ensures HalfAligned(idx, a)
  {
  }

  lemma RunSnoc(b: nat, n: nat, sz: nat)
    ensures Run(b, n + 1, sz) == Run(b, n, sz) + [b + n * sz]
    ensures (n + 1) * sz == n * sz + sz
  {
  }

  lemma {:induction false} RunAt(b: nat, n: nat, sz: nat, j: nat)
    requires j < n
    ensures Run(b, n, sz)[j] == b + j * sz
  {
    if j + 1 < n {
      RunAt(b, n - 1, sz, j);
    }
  }

  lemma {:induction false} RunTiled(b: nat, n: nat, sz: nat)
    requires sz > 0
    ensures Tiled(PiecesAt(Run(b, n, sz), sz), b, b + n * sz)
  {
    if n > 0 {
      RunTiled(b, n - 1, sz);
      RunSnoc(b, n - 1, sz);
      var last := b + (n - 1) * sz;
      SingleTiled(last, sz, false);
      AppendTiled(PiecesAt(Run(b, n - 1, sz), sz), {Piece(last, sz, false)}, b, last, last + sz);
      assert PiecesAt(Run(b, n, sz), sz) == PiecesAt(Run(b, n - 1, sz), sz) + {Piece(last, sz, false)};
    }
  }

  lemma AscendingSnoc(L: seq<nat>, x: nat)
    requires Ascending(L) && forall a :: a in L ==> a < x
    ensures Ascending(L + [x])
  {
    forall j, k | 0 <= j < k < |L + [x]|
      ensures (L + [x])[j] < (L + [x])[k]
    {
      assert L[j] in L;
    }
  }

  lemma {:induction false} RunAscending(b: nat, n: nat, sz: nat)
    requires sz > 0
    ensures Ascending(Run(b, n, sz))
    ensures forall a :: a in Run(b, n, sz) ==> b <= a && a + sz <= b + n * sz
  {
    if n > 0 {
      RunAscending(b, n - 1, sz);
      RunSnoc(b, n - 1, sz);
      AscendingSnoc(Run(b, n - 1, sz), b + (n - 1) * sz);
    }
  }

  lemma InsertRunMembers(L: seq<nat>, b: nat, n: nat, sz: nat)
    ensures forall a :: a in InsertRun(L, b, n, sz) <==> a in L || a in Run(b, n, sz)
    ensures PiecesAt(InsertRun(L, b, n, sz), sz) == PiecesAt(L, sz) + PiecesAt(Run(b, n, sz), sz)
  {
    var k := PosFrom(L, b, 0);
    assert L == L[..k] + L[k..];
  }

  lemma InsertRunAscending(L: seq<nat>, b: nat, n: nat, sz: nat)
    requires sz > 0 && Ascending(L)
    requires forall a :: a in L ==> a < b || b + n * sz <= a
    ensures Ascending(InsertRun(L, b, n, sz))
  {
    RunAscending(b, n, sz);
    var k := PosFrom(L, b, 0);
    var M := InsertRun(L, b, n, sz);
    forall j | k <= j < |L|
      ensures b + n * sz <= L[j]
    {
      assert L[j] in L;
    }
    forall j, l | 0 <= j < l < |M|
      ensures M[j] < M[l]
    {
      if j < k && k <= l < k + n {
        assert M[l] in Run(b, n, sz);
      } else if k <= j < k + n && k + n <= l {
        assert M[j] in Run(b, n, sz);
        assert M[l] == L[l - n];
      }
    }
  }

  lemma AddFreePieces(free: Lists, idx: nat, b: nat, n: nat)
    requires idx < BUDY_COUNT
    ensures FreePieces(AddFree(free, idx, b, n))
            == FreePieces(free) + PiecesAt(Run(b, n, Size(idx)), Size(idx))
  {
    var L := InsertRun(free[idx], b, n, Size(idx));
    InsertRunMembers(free[idx], b, n, Size(idx));
    UpdateLevel(free, idx, L);
  }

  lemma AddFreeShaped(free: Lists, idx: nat, b: nat, n: nat)
    requires idx < BUDY_COUNT && Shaped(free)
    requires RunAligned(idx, b, n)
    requires forall a :: a in free[idx] ==> a < b || b + n * Size(idx) <= a
    ensures Shaped(AddFree(free, idx, b, n))
  {
    var f := AddFree(free, idx, b, n);
    InsertRunAscending(free[idx], b, n, Size(idx));
    forall i, a | 0 <= i < BUDY_COUNT && a in f[i]
      ensures HalfAligned(i, a)
    {
      if i == idx {
        InsertRunMembers(free[idx], b, n, Size(idx));
      }
    }
  }

  lemma PackedUnion(P: set<Piece>, B: set<Piece>, lo: int, hi: int, x: int, y: int)
    requires Packed(P, lo, hi) && Packed(B, x, y) && lo <= x && y <= hi
    requires forall t :: t in P ==> t.start + t.size <= x || y <= t.start
    ensures Packed(P + B, lo, hi)
  {
  }

  // pool_add_free on blocks that are not free yet.
  lemma AddFreeStep(free: Lists, idx: nat, b: nat, n: nat, lo: int, hi: int)
    requires idx < BUDY_COUNT && FreeOk(free, lo, hi)
    requires RunAligned(idx, b, n)
    requires lo <= b && b + n * Size(idx) <= hi && ClearOf(free, b, b + n * Size(idx))
    ensures FreeOk(AddFree(free, idx, b, n), lo, hi)
    ensures FreePieces(AddFree(free, idx, b, n))
            == FreePieces(free) + PiecesAt(Run(b, n, Size(idx)), Size(idx))
  {
    var sz := Size(idx);
    forall a | a in free[idx]
      ensures a < b || b + n * sz <= a
    {
      assert Piece(a, sz, false) in FreePieces(free);
    }
    AddFreePieces(free, idx, b, n);
    AddFreeShaped(free, idx, b, n);
    RunTiled(b, n, sz);
    PackedUnion(FreePieces(free), PiecesAt(Run(b, n, sz), sz), lo, hi, b, b + n * sz);
  }

  // Removing a stretch of n list entries.
  lemma DropRunFacts(L: seq<nat>, k: nat, n: nat, sz: nat)
    requires k + n <= |L| && Ascending(L)
    ensures Ascending(DropRun(L, k, n))
    ensures forall a :: a in DropRun(L, k, n) <==> a in L && a !in L[k..k + n]
    ensures PiecesAt(DropRun(L, k, n), sz) == PiecesAt(L, sz) - PiecesAt(L[k..k + n], sz)
  {
    assert L == L[..k] + L[k..k + n] + L[k + n..];
  }

  lemma DropStep(free: Lists, idx: nat, k: nat, n: nat, lo: int, hi: int)
    requires idx < BUDY_COUNT && k + n <= |free[idx]| && FreeOk(free, lo, hi)
    ensures var f: Lists := free[idx := DropRun(free[idx], k, n)];
            && FreeOk(f, lo, hi)
            && FreePieces(f) == FreePieces(free) - PiecesAt(free[idx][k..k + n], Size(idx))
    ensures PiecesAt(free[idx][k..k + n], Size(idx)) <= FreePieces(free)
  {
    var f: Lists := free[idx := DropRun(free[idx], k, n)];
    DropRunFacts(free[idx], k, n, Size(idx));
    UpdateLevel(free, idx, f[idx]);
    assert free[idx] == free[idx][..k] + free[idx][k..k + n] + free[idx][k + n..];
    assert forall a :: a in free[idx][k..k + n] ==> a in free[idx];
  }

  // What is left of a packing meets none of the bytes of the pieces taken out.
  lemma TakenOutIsClear(free: Lists, f: Lists, A: set<Piece>, lo: int, hi: int, x: int, y: int)
    requires Packed(FreePieces(free), lo, hi) && A <= FreePieces(free) && x < y
    requires FreePieces(f) == FreePieces(free) - A && Tiled(A, x, y)
    ensures ClearOf(f, x, y) && lo <= x && y <= hi
  {
    forall t | t in FreePieces(f)
      ensures t.start + t.size <= x || y <= t.start
    {
      if t.start + t.size > x && y > t.start {
        var z := if t.start <= x then x else t.start;
        assert CoveredBy(A, z);
        var a :| a in A && Covers(a, z);
        assert false;
      }
    }
    assert CoveredBy(A, x) && CoveredBy(A, y - 1);
  }

  lemma RunOfTwo(a: nat, sz: nat)
    ensures Run(a, 1, sz) == [a] && Run(a, 2, sz) == [a, a + sz]
    ensures PiecesAt(Run(a, 1, sz), sz) == {Piece(a, sz, false)}
    ensures PiecesAt(Run(a, 2, sz), sz) == {Piece(a, sz, false), Piece(a + sz, sz, false)}
  {
    assert Run(a, 2, sz)[1] == a + sz;
    assert Run(a, 2, sz) == [a, a + sz];
    assert Run(a, 1, sz) == [a];
  }

  lemma AddOneStep(free: Lists, idx: nat, a: nat, lo: int, hi: int)
    requires idx < BUDY_COUNT && FreeOk(free, lo, hi) && HalfAligned(idx, a)
    requires lo <= a && a + Size(idx) <= hi && ClearOf(free, a, a + Size(idx))
    ensures FreeOk(AddFree(free, idx, a, 1), lo, hi)
    ensures FreePieces(AddFree(free, idx, a, 1)) == FreePieces(free) + {Piece(a, Size(idx), false)}
  {
    RunOfTwo(a, Size(idx));
    AddFreeStep(free, idx, a, 1, lo, hi);
  }

  lemma TwoAligned(idx: nat, a: nat)
    requires HalfAligned(idx, a) && HalfAligned(idx, a + Size(idx))
    ensures RunAligned(idx, a, 2)
  {
    var b := a + Size(idx);
    RunOfTwo(a, Size(idx));
    assert HalfAligned(idx, b);
    forall x | x in [a, b]
      ensures HalfAligned(idx, x)
    {
    }
  }

  lemma AddTwoStep(free: Lists, idx: nat, a: nat, lo: int, hi: int)
    requires idx < BUDY_COUNT && FreeOk(free, lo, hi)
    requires HalfAligned(idx, a) && HalfAligned(idx, a + Size(idx))
    requires lo <= a && a + 2 * Size(idx) <= hi && ClearOf(free, a, a + 2 * Size(idx))
    ensures FreeOk(AddFree(free, idx, a, 2), lo, hi)
    ensures FreePieces(AddFree(free, idx, a, 2))
            == FreePieces(free) + {Piece(a, Size(idx), false), Piece(a + Size(idx), Size(idx), false)}
  {
    RunOfTwo(a, Size(idx));
    TwoAligned(idx, a);
    AddFreeStep(free, idx, a, 2, lo, hi);
  }

  // The effect of MergeAt on the pieces.
  ghost predicate Merged(P: set<Piece>, Q: set<Piece>, a: nat, sz: nat) {
    && {Piece(a, sz, false), Piece(a + sz, sz, false)} <= P
    && Q == P - {Piece(a, sz, false), Piece(a + sz, sz, false)} + {Piece(a, 2 * sz, false)}
  }

  // The effect of SplitHead on the pieces.
  ghost predicate Halved(P: set<Piece>, Q: set<Piece>, a: nat, sz: nat) {
    && Piece(a, 2 * sz, false) in P
    && Q == P - {Piece(a, 2 * sz, false)} + {Piece(a, sz, false), Piece(a + sz, sz, false)}
  }

  lemma PairIsRun(free: Lists, idx: nat, k: nat)
    requires idx < BUDY_COUNT && k + 1 < |free[idx]| && free[idx][k + 1] == free[idx][k] + Size(idx)
    ensures free[idx][k..k + 2] == Run(free[idx][k], 2, Size(idx))
    ensures TakePair(free, idx, k) == free[idx := DropRun(free[idx], k, 2)]
  {
    RunOfTwo(free[idx][k], Size(idx));
    assert free[idx][k..k + 2] == [free[idx][k], free[idx][k + 1]];
  }

  lemma TwoTiled(a: nat, sz: nat)
    requires sz > 0
    ensures Tiled({Piece(a, sz, false), Piece(a + sz, sz, false)}, a, a + 2 * sz)
  {
    RunTiled(a, 2, sz);
    RunOfTwo(a, sz);
  }

  lemma TakePairStep(free: Lists, idx: nat, k: nat, lo: int, hi: int)
    requires idx < BUDY_COUNT && FreeOk(free, lo, hi)
    requires k + 1 < |free[idx]| && free[idx][k + 1] == free[idx][k] + Size(idx)
    ensures var a, sz := free[idx][k], Size(idx);
            var A := {Piece(a, sz, false), Piece(a + sz, sz, false)};
            && FreeOk(TakePair(free, idx, k), lo, hi) && A <= FreePieces(free)
            && FreePieces(TakePair(free, idx, k)) == FreePieces(free) - A
  {
    PairIsRun(free, idx, k);
    RunOfTwo(free[idx][k], Size(idx));
    DropStep(free, idx, k, 2, lo, hi);
  }

  lemma DropPairStep(free: Lists, idx: nat, k: nat, lo: int, hi: int)
    requires idx < BUDY_COUNT && FreeOk(free, lo, hi)
    requires k + 1 < |free[idx]| && free[idx][k + 1] == free[idx][k] + Size(idx)
    ensures var f := TakePair(free, idx, k);
            var a, sz := free[idx][k], Size(idx);
            && FreeOk(f, lo, hi)
            && {Piece(a, sz, false), Piece(a + sz, sz, false)} <= FreePieces(free)
            && FreePieces(f) == FreePieces(free) - {Piece(a, sz, false), Piece(a + sz, sz, false)}
            && ClearOf(f, a, a + 2 * sz) && lo <= a && a + 2 * sz <= hi
  {
    hide Run, Ascending, Shaped, FreePieces, Tiled;
    var a, sz := free[idx][k], Size(idx);
    TakePairStep(free, idx, k, lo, hi);
    TwoTiled(a, sz);
    TakenOutIsClear(free, TakePair(free, idx, k), {Piece(a, sz, false), Piece(a + sz, sz, false)},
                    lo, hi, a, a + 2 * sz);
  }

  // One merge: two adjacent free pieces become the piece of twice the size.
  lemma MergeStep(free: Lists, idx: nat, k: nat, lo: int, hi: int)
    requires idx + 1 < BUDY_COUNT && FreeOk(free, lo, hi) && Mergeable(free[idx], idx, k)
    ensures FreeOk(MergeAt(free, idx, k), lo, hi)
    ensures Merged(FreePieces(free), FreePieces(MergeAt(free, idx, k)), free[idx][k], Size(idx))
  {
    hide FreeOk, FreePieces, ClearOf, HalfAligned, OwnAligned, Run, InsertRun;
    var a, sz := free[idx][k], Size(idx);
    DropPairStep(free, idx, k, lo, hi);
    MergeAligned(idx, a);
    AddOneStep(TakePair(free, idx, k), idx + 1, a, lo, hi);
  }

  lemma PopStep(free: Lists, idx: nat, lo: int, hi: int)
    requires idx < BUDY_COUNT && FreeOk(free, lo, hi) && free[idx] != []
    ensures var f := PopHead(free, idx);
            var a, sz := free[idx][0], Size(idx);
            && FreeOk(f, lo, hi)
            && Piece(a, sz, false) in FreePieces(free)
            && FreePieces(f) == FreePieces(free) - {Piece(a, sz, false)}
            && ClearOf(f, a, a + sz) && lo <= a && a + sz <= hi && HalfAligned(idx, a)
  {
    var a, sz := free[idx][0], Size(idx);
    var f := PopHead(free, idx);
    RunOfTwo(a, sz);
    assert free[idx][0..0 + 1] == Run(a, 1, sz);
    assert PopHead(free, idx)[idx] == DropRun(free[idx], 0, 1);
    DropStep(free, idx, 0, 1, lo, hi);
    RunTiled(a, 1, sz);
    TakenOutIsClear(free, f, PiecesAt(Run(a, 1, sz), sz), lo, hi, a, a + sz);
  }

  // One split: the head piece of a level becomes its two halves.
  lemma SplitStep(free: Lists, idx: nat, lo: int, hi: int)
    requires idx + 1 < BUDY_COUNT && FreeOk(free, lo, hi) && free[idx + 1] != []
    ensures FreeOk(SplitHead(free, idx), lo, hi)
    ensures Halved(FreePieces(free), FreePieces(SplitHead(free, idx)), free[idx + 1][0], Size(idx))
  {
    hide FreeOk, FreePieces, ClearOf, HalfAligned, Run, InsertRun;
    var a := free[idx + 1][0];
    PopStep(free, idx + 1, lo, hi);
    SplitAligned(idx, a);
    AddTwoStep(PopHead(free, idx + 1), idx, a, lo, hi);
  }
}
