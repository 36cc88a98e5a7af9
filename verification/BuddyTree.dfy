/**
 The theory of the buddy bitmap, independent of how its bits are stored.

 A heap of `2^L` units is a complete binary tree whose cells are numbered in heap order: the root is 1,
 cell `h` has the children `2h` and `2h + 1`, and unit `u` is the leaf `2^L + u`. The cell of size class
 `k` above a leaf `x` is therefore `x >> k`. A state of the allocator is the set of the cells marked FREE.
 */
module BuddyTree {
  import opened Bits

  predicate IsCell(L: nat, h: nat)
  {
    1 <= h < Pow2(L + 1)
  }

  /** `h` is a cell of size class `k`, that is, one of `2^k` units. */
  predicate InClass(L: nat, k: nat, h: nat)
  {
    k <= L && Pow2(L - k) <= h < Pow2(L - k + 1)
  }

  function Leaf(L: nat, u: nat): nat
  {
    Pow2(L) + u
  }

  function Buddy(h: nat): nat
  {
    if h % 2 == 0 then h + 1 else h - 1
  }

  /** The cell of class `k` that holds unit `u`. */
  function CellOf(L: nat, k: nat, u: nat): nat
  {
    Shr(Leaf(L, u), k)
  }

  /** The units of cell `h` of class `k`. */
  ghost function Block(L: nat, k: nat, h: nat): set<nat>
  {
    set u | 0 <= u < Pow2(L) && CellOf(L, k, u) == h
  }

  ghost predicate Covered(L: nat, free: set<nat>, u: nat)
  {
    exists k :: 0 <= k <= L && CellOf(L, k, u) in free
  }

  /** The free units: those under some FREE cell. */
  ghost function Units(L: nat, free: set<nat>): set<nat>
  {
    set u | 0 <= u < Pow2(L) && Covered(L, free, u)
  }

  /** No FREE cell lies beneath another. */
  ghost predicate NoNesting(free: set<nat>)
  {
    forall h, j :: h in free && j > 0 ==> Shr(h, j) !in free
  }

  ghost predicate NoFreeBuddies(free: set<nat>)
  {
    forall h :: h in free && h > 1 ==> Buddy(h) !in free
  }

  /** The canonical form that every operation keeps. */
  ghost predicate Canonical(L: nat, free: set<nat>)
  {
    && (forall h :: h in free ==> IsCell(L, h))
    && NoNesting(free)
    && NoFreeBuddies(free)
  }

  /** Every unit of cell `h` is free. */
  ghost predicate Full(L: nat, units: set<nat>, k: nat, h: nat)
  {
    Block(L, k, h) <= units
  }

  /** `h` is a wholly free cell, and the cell above it is not wholly free. */
  ghost predicate Maximal(L: nat, units: set<nat>, k: nat, h: nat)
  {
    Full(L, units, k, h) && (k < L ==> !Full(L, units, k + 1, h / 2))
  }

  // ---- classes and cells ----

  lemma {:induction false} ClassExists(L: nat, h: nat) returns (k: nat)
    requires IsCell(L, h)
    ensures InClass(L, k, h)
  {
    if h >= Pow2(L) {
      k := 0;
    } else {
      k := ClassExists(L - 1, h);
      k := k + 1;
    }
  }

  lemma ClassIsUnique(L: nat, h: nat, j: nat, k: nat)
    requires InClass(L, j, h) && InClass(L, k, h)
    ensures j == k
  {
    if j < k {
      Pow2Monotone(L - k + 1, L - j);
    } else if k < j {
      Pow2Monotone(L - j + 1, L - k);
    }
  }

  lemma {:induction false} ShrClass(L: nat, k: nat, h: nat, j: nat)
    requires InClass(L, k, h) && k + j <= L
    ensures InClass(L, k + j, Shr(h, j))
    decreases j
  {
    if j > 0 {
      assert InClass(L, k + 1, h / 2);
      ShrClass(L, k + 1, h / 2, j - 1);
    }
  }

  lemma BuddyClass(L: nat, k: nat, h: nat)
    requires InClass(L, k, h) && k < L
    ensures InClass(L, k, Buddy(h))
  {
    assert Pow2(L - k) == 2 * Pow2(L - k - 1) && Pow2(L - k + 1) == 2 * Pow2(L - k);
  }

  lemma LeafClass(L: nat, k: nat, u: nat)
    requires u < Pow2(L) && k <= L
    ensures InClass(L, k, CellOf(L, k, u))
  {
    ShrClass(L, 0, Leaf(L, u), k);
  }

  lemma CellIsInClass(L: nat, k: nat, h: nat)
    requires InClass(L, k, h)
    ensures IsCell(L, h)
  {
    Pow2Monotone(L - k + 1, L + 1);
  }

  /** Shifting a cell out of the tree leaves nothing that is a cell. */
  lemma {:induction false} ShrVanishes(L: nat, k: nat, h: nat, j: nat)
    requires InClass(L, k, h) && k + j > L
    ensures Shr(h, j) == 0
  {
    ShrInterval(h, j, 0);
    Pow2Monotone(L - k + 1, j);
  }

  /** The ancestor of a leaf in class `j`, seen from the ancestor in a lower class `k`. */
  lemma CellAbove(L: nat, u: nat, k: nat, j: nat)
    requires k <= j
    ensures Shr(CellOf(L, k, u), j - k) == CellOf(L, j, u)
  {
    ShrAdd(Leaf(L, u), k, j - k);
  }

  /** The first unit of a cell lies in its block, so no block is empty. */
  lemma FirstUnit(L: nat, k: nat, h: nat) returns (u: nat)
    requires InClass(L, k, h)
    ensures u in Block(L, k, h)
    ensures Leaf(L, u) == h * Pow2(k)
  {
    Pow2Add(L - k, k);
    Pow2Add(L - k + 1, k);
    MulOrder(Pow2(L - k), h, Pow2(k));
    MulOrder(h, Pow2(L - k + 1), Pow2(k));
    u := h * Pow2(k) - Pow2(L);
    AlignedMultiple(h, k);
  }

  /** The block of a cell is an interval of `2^k` units. */
  lemma BlockIsInterval(L: nat, k: nat, h: nat, start: nat)
    requires InClass(L, k, h) && Leaf(L, start) == h * Pow2(k)
    ensures start + Pow2(k) <= Pow2(L)
    ensures forall u :: u in Block(L, k, h) <==> start <= u < start + Pow2(k)
  {
    assert h * Pow2(k) + Pow2(k) <= 2 * Pow2(L) by {
      Pow2Add(L - k + 1, k);
      MulOrder(h, Pow2(L - k + 1), Pow2(k));
    }
    var end := (h + 1) * Pow2(k);
    assert end == h * Pow2(k) + Pow2(k) by {
      MulOrder(h, h + 1, Pow2(k));
    }
    forall u: nat
      ensures Shr(Leaf(L, u), k) == h <==> h * Pow2(k) <= Leaf(L, u) < end
    {
      ShrInterval(Leaf(L, u), k, h);
    }
  }

  /** A block is the union of the blocks of the two halves. */
  lemma BlockHalves(L: nat, k: nat, h: nat)
    requires InClass(L, k + 1, h)
    ensures InClass(L, k, 2 * h) && InClass(L, k, 2 * h + 1)
    ensures Block(L, k + 1, h) == Block(L, k, 2 * h) + Block(L, k, 2 * h + 1)
    ensures Block(L, k, 2 * h) !! Block(L, k, 2 * h + 1)
  {
    forall u: nat | u < Pow2(L)
      ensures CellOf(L, k + 1, u) == CellOf(L, k, u) / 2
    {
      ShrStep(Leaf(L, u), k);
    }
  }

  // ---- the canonical form determines and is determined by the free units ----

  lemma CoveredBy(L: nat, free: set<nat>, k: nat, h: nat)
    requires h in free && k <= L
    ensures Full(L, Units(L, free), k, h)
  {
  }

  /** In a canonical state a wholly free cell has a FREE cell at or above it. */
  lemma {:induction false} FullHasFreeAncestor(L: nat, free: set<nat>, k: nat, h: nat) returns (j: nat)
    requires Canonical(L, free) && InClass(L, k, h)
    requires Full(L, Units(L, free), k, h)
    ensures k + j <= L && Shr(h, j) in free
    decreases k
  {
    if k == 0 {
      var u := FirstUnit(L, 0, h);
      assert Covered(L, free, u);
      j :| 0 <= j <= L && CellOf(L, j, u) in free;
    } else {
      BlockHalves(L, k - 1, h);
      var a := FullHasFreeAncestor(L, free, k - 1, 2 * h);
      var b := FullHasFreeAncestor(L, free, k - 1, 2 * h + 1);
      assert Buddy(2 * h) == 2 * h + 1;
      if a > 0 {
        j := a - 1;
      } else if b > 0 {
        j := b - 1;
      } else {
        assert false;
      }
    }
  }

  /** The FREE cells of a canonical state are exactly the maximal wholly free cells. */
  lemma FreeIffMaximal(L: nat, free: set<nat>, k: nat, h: nat)
    requires Canonical(L, free) && InClass(L, k, h)
    ensures h in free <==> Maximal(L, Units(L, free), k, h)
  {
    var units := Units(L, free);
    if h in free {
      CoveredBy(L, free, k, h);
      if k < L && Full(L, units, k + 1, h / 2) {
        ShrClass(L, k, h, 1);
        assert Shr(h, 1) == h / 2;
        var j := FullHasFreeAncestor(L, free, k + 1, h / 2);
        assert Shr(h, j + 1) in free;
        assert false;
      }
    }
    if Maximal(L, units, k, h) {
      var j := FullHasFreeAncestor(L, free, k, h);
      if j > 0 {
        ShrClass(L, k, h, j);
        CoveredBy(L, free, k + j, Shr(h, j));
        FullBelow(L, units, k + 1, h / 2, j - 1);
        assert false;
      }
    }
  }

  lemma FullBelow(L: nat, units: set<nat>, k: nat, h: nat, j: nat)
    requires Full(L, units, k + j, Shr(h, j))
    ensures Full(L, units, k, h)
  {
    forall u | u in Block(L, k, h)
      ensures u in Block(L, k + j, Shr(h, j))
    {
      CellAbove(L, u, k, k + j);
    }
  }

  /** Two canonical states with the same free units are the same. */
  lemma CanonicalIsUnique(L: nat, f: set<nat>, g: set<nat>)
    requires Canonical(L, f) && Canonical(L, g)
    requires Units(L, f) == Units(L, g)
    ensures f == g
  {
    forall h | IsCell(L, h)
      ensures h in f <==> h in g
    {
      var k := ClassExists(L, h);
      FreeIffMaximal(L, f, k, h);
      FreeIffMaximal(L, g, k, h);
    }
  }

  /** Conversely, the maximal wholly free cells of any set of units form a canonical state. */
  lemma MaximalCellsAreCanonical(L: nat, units: set<nat>, free: set<nat>)
    requires forall h :: h in free ==> IsCell(L, h)
    requires forall k, h :: InClass(L, k, h) ==> (h in free <==> Maximal(L, units, k, h))
    ensures Canonical(L, free)
  {
    forall h, j | h in free && j > 0
      ensures Shr(h, j) !in free
    {
      var k := ClassExists(L, h);
      if k + j > L {
        ShrVanishes(L, k, h, j);
      } else if Shr(h, j) in free {
        ShrClass(L, k, h, j);
        FullBelow(L, units, k + 1, h / 2, j - 1);
        assert false;
      }
    }
    forall h | h in free && h > 1
      ensures Buddy(h) !in free
    {
      var k := ClassExists(L, h);
      if Buddy(h) in free {
        ShrClass(L, k, h, 1);
        BlockHalves(L, k, h / 2);
        assert false;
      }
    }
  }

  /** And they stand for exactly those units. */
  lemma MaximalCellsCover(L: nat, units: set<nat>, free: set<nat>)
    requires forall u :: u in units ==> u < Pow2(L)
    requires forall k, h :: InClass(L, k, h) ==> (h in free <==> Maximal(L, units, k, h))
    ensures Units(L, free) == units
  {
    forall u: nat | u < Pow2(L)
      ensures Covered(L, free, u) <==> u in units
    {
      if u in units {
        LeafClass(L, 0, u);
        var j := MaximalAbove(L, units, 0, CellOf(L, 0, u));
        CellAbove(L, u, 0, j);
        LeafClass(L, j, u);
      }
      if k: nat :| k <= L && CellOf(L, k, u) in free {
        LeafClass(L, k, u);
        assert u in Block(L, k, CellOf(L, k, u));
      }
    }
  }

  lemma {:induction false} MaximalAbove(L: nat, units: set<nat>, k: nat, h: nat) returns (j: nat)
    requires InClass(L, k, h) && Full(L, units, k, h)
    ensures k + j <= L && Maximal(L, units, k + j, Shr(h, j))
    decreases L - k
  {
    if Maximal(L, units, k, h) {
      j := 0;
    } else {
      ShrClass(L, k, h, 1);
      var i := MaximalAbove(L, units, k + 1, h / 2);
      j := i + 1;
      ShrAdd(h, 1, i);
    }
  }

  // ---- the two elementary changes ----

  /** Taking a FREE cell away. */
  lemma RemoveCell(L: nat, free: set<nat>, k: nat, h: nat)
    requires Canonical(L, free) && InClass(L, k, h) && h in free
    ensures Canonical(L, free - {h})
    ensures Units(L, free - {h}) == Units(L, free) - Block(L, k, h)
    ensures Block(L, k, h) <= Units(L, free)
  {
    forall u | u in Units(L, free)
      ensures u in Units(L, free - {h}) <==> u !in Block(L, k, h)
    {
      var j :| 0 <= j <= L && CellOf(L, j, u) in free;
      if u in Block(L, k, h) && Covered(L, free - {h}, u) {
        var i :| 0 <= i <= L && CellOf(L, i, u) in free - {h};
        if i <= k {
          CellAbove(L, u, i, k);
        } else {
          CellAbove(L, u, k, i);
        }
        assert false;
      }
      if u !in Block(L, k, h) && CellOf(L, j, u) == h {
        LeafClass(L, j, u);
        ClassIsUnique(L, h, j, k);
      }
    }
  }

  /** Marking a cell FREE when none of its units is free and its buddy is not FREE. */
  lemma AddCell(L: nat, free: set<nat>, k: nat, h: nat)
    requires Canonical(L, free) && InClass(L, k, h)
    requires Block(L, k, h) !! Units(L, free)
    requires h > 1 ==> Buddy(h) !in free
    ensures h !in free
    ensures Canonical(L, free + {h})
    ensures Units(L, free + {h}) == Units(L, free) + Block(L, k, h)
  {
    CellIsInClass(L, k, h);
    NothingAround(L, free, k, h);
    assert h !in free by {
      assert Shr(h, 0) == h;
    }
    forall g, j | g in free + {h} && j > 0
      ensures Shr(g, j) !in free + {h}
    {
      ShrIsLess(g, j);
    }
    forall u | u in Units(L, free + {h})
      ensures u in Units(L, free) + Block(L, k, h)
    {
      var j :| 0 <= j <= L && CellOf(L, j, u) in free + {h};
      LeafClass(L, j, u);
      if CellOf(L, j, u) == h {
        ClassIsUnique(L, h, j, k);
      }
    }
    forall g | g in free + {h} && g > 1
      ensures Buddy(g) !in free + {h}
    {
      assert Buddy(Buddy(g)) == g;
    }
  }

  lemma FreeUnitBelow(L: nat, free: set<nat>, k: nat, h: nat, j: nat) returns (u: nat)
    requires InClass(L, k, h) && h in free
    ensures u in Units(L, free) && u in Block(L, k + j, Shr(h, j))
  {
    u := FirstUnit(L, k, h);
    CoveredBy(L, free, k, h);
    CellAbove(L, u, k, k + j);
  }

  /** Around a cell without a free unit there is no FREE cell, neither above, nor below, nor at it. */
  lemma NothingAround(L: nat, free: set<nat>, k: nat, h: nat)
    requires Canonical(L, free) && InClass(L, k, h)
    requires Block(L, k, h) !! Units(L, free)
    ensures forall j :: 0 <= j ==> Shr(h, j) !in free
    ensures forall g, j :: g in free && 0 <= j ==> Shr(g, j) != h
  {
    forall j | 0 <= j && Shr(h, j) in free
      ensures false
    {
      if k + j > L {
        ShrVanishes(L, k, h, j);
      } else {
        var u := FirstUnit(L, k, h);
        CoveredBy(L, free, k + j, Shr(h, j));
        FullBelow(L, Units(L, free), k, h, j);
      }
    }
    forall g, j | g in free && 0 <= j && Shr(g, j) == h
      ensures false
    {
      var i := ClassExists(L, g);
      CellIsInClass(L, k, h);
      if i + j > L {
        ShrVanishes(L, i, g, j);
      } else {
        ShrClass(L, i, g, j);
        ClassIsUnique(L, h, i + j, k);
        var u := FreeUnitBelow(L, free, i, g, j);
      }
    }
  }
}
