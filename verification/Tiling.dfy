// Sets of address intervals: what it means that pieces of memory tile a region.
module Tiling {

  // The bytes [start, start + size), free or handed out to a client.
  datatype Piece = Piece(start: nat, size: nat, live: bool)

  predicate Covers(t: Piece, x: int) {
    t.start <= x < t.start + t.size
  }

  predicate Disjoint(t: Piece, u: Piece) {
    t.start + t.size <= u.start || u.start + u.size <= t.start
  }

  ghost predicate CoveredBy(P: set<Piece>, x: int) {
    exists t :: t in P && Covers(t, x)
  }

  // Non-empty pieces inside [lo, hi), no two of which overlap.
  ghost predicate Packed(P: set<Piece>, lo: int, hi: int) {
    && (forall t :: t in P ==> lo <= t.start && 0 < t.size && t.start + t.size <= hi)
    && (forall t, u :: t in P && u in P && t != u ==> Disjoint(t, u))
  }

  // Packed, and every byte of the region belongs to a piece.
  ghost predicate Tiled(P: set<Piece>, lo: int, hi: int) {
    && Packed(P, lo, hi)
    && forall x :: lo <= x < hi ==> CoveredBy(P, x)
  }

  // Replacing some pieces by others that lie in the bytes they occupied keeps a packing.
  lemma ReplacePacked(P: set<Piece>, A: set<Piece>, B: set<Piece>, lo: int, hi: int, x: int, y: int)
    requires Packed(P, lo, hi) && A <= P && Tiled(A, x, y) && Packed(B, x, y)
    ensures Packed(P - A + B, lo, hi)
  {
    forall t, u | t in P - A && u in B
      ensures Disjoint(t, u)
    {
      if !Disjoint(t, u) {
        var z := if t.start <= u.start then u.start else t.start;
        assert CoveredBy(A, z);
        var a :| a in A && Covers(a, z);
        assert false;
      }
    }
    forall t | t in B
      ensures lo <= t.start && t.start + t.size <= hi
    {
      assert CoveredBy(A, t.start) && CoveredBy(A, t.start + t.size - 1);
    }
  }

  // Replacing pieces by others that tile the same bytes changes no covered byte.
  lemma ReplaceCovers(P: set<Piece>, A: set<Piece>, B: set<Piece>, x: int, y: int, z: int)
    requires A <= P && Tiled(A, x, y) && Tiled(B, x, y)
    ensures CoveredBy(P - A + B, z) <==> CoveredBy(P, z)
  {
    if CoveredBy(P, z) {
      var t :| t in P && Covers(t, z);
      if t in A {
        assert CoveredBy(B, z);
        var u :| u in B && Covers(u, z);
        assert u in P - A + B;
      } else {
        assert t in P - A + B;
      }
    }
    if CoveredBy(P - A + B, z) {
      var t :| t in P - A + B && Covers(t, z);
      if t in B {
        assert CoveredBy(A, z);
        var u :| u in A && Covers(u, z);
        assert u in P;
      } else {
        assert t in P;
      }
    }
  }

  // The replacement principle: split, merge, hand-out and return are all instances.
  lemma ReplaceTiled(P: set<Piece>, A: set<Piece>, B: set<Piece>, lo: int, hi: int, x: int, y: int)
    requires Tiled(P, lo, hi) && A <= P && Tiled(A, x, y) && Tiled(B, x, y)
    ensures Tiled(P - A + B, lo, hi)
  {
    ReplacePacked(P, A, B, lo, hi, x, y);
    forall z | lo <= z < hi
      ensures CoveredBy(P - A + B, z)
    {
      ReplaceCovers(P, A, B, x, y, z);
    }
  }

  // A tiling names every byte of its region exactly once, and no byte outside.
  lemma TiledExactlyOnce(P: set<Piece>, lo: int, hi: int, x: int)
    requires Tiled(P, lo, hi)
    ensures lo <= x < hi <==> CoveredBy(P, x)
    ensures forall t, u :: t in P && u in P && Covers(t, x) && Covers(u, x) ==> t == u
  {
  }

  lemma SingleTiled(a: nat, n: nat, live: bool)
    requires n > 0
    ensures Tiled({Piece(a, n, live)}, a, a + n)
  {
    var t := Piece(a, n, live);
    forall x | a <= x < a + n
      ensures CoveredBy({t}, x)
    {
      assert t in {t} && Covers(t, x);
    }
  }

  lemma AppendTiled(A: set<Piece>, B: set<Piece>, x: int, y: int, z: int)
    requires x <= y <= z && Tiled(A, x, y) && Tiled(B, y, z)
    ensures Tiled(A + B, x, z)
  {
    forall t, u | t in A && u in B
      ensures t.start + t.size <= u.start
    {
    }
    forall p | x <= p < z
      ensures CoveredBy(A + B, p)
    {
      if p < y {
        assert CoveredBy(A, p);
        var t :| t in A && Covers(t, p);
        assert t in A + B;
      } else {
        assert CoveredBy(B, p);
        var t :| t in B && Covers(t, p);
        assert t in A + B;
      }
    }
  }
}
