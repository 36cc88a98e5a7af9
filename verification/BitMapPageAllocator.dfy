/**
 The buddy page allocator over a bitmap. `logUnits` is LOG_HEAP_SIZE - 12; units are 4K pages counted
 from the base address. The abstract value of an allocator is the set of its free units.
 */
module BitMapPageAllocator {
  import opened Options
  import opened Bits
  import opened BuddyTree
  import opened BitTable

  const FREE: bv64 := 1
  const USED: bv64 := 0

  function TableLength(L: nat): nat
  {
    Pow2(L) * 2 / 8
  }

  ghost function FreeCells(L: nat, table: seq<bv64>): set<nat>
  {
    set h | 1 <= h < Pow2(L + 1) && BitAt(table, h)
  }

  ghost function FreeUnits(L: nat, table: seq<bv64>): set<nat>
  {
    Units(L, FreeCells(L, table))
  }

  /** At least 64 units: with fewer, the search underflows when it takes 6 from the log of the units. */
  ghost predicate Sized(L: nat, table: seq<bv64>)
  {
    && 6 <= L
    && |table| == TableLength(L)
    && forall b: nat :: BitAt(table, b) ==> IsCell(L, b)
  }

  ghost predicate WellFormed(L: nat, table: seq<bv64>)
  {
    Sized(L, table) && Canonical(L, FreeCells(L, table))
  }

  predicate Within(start: nat, n: nat, u: int)
  {
    start <= u < start + n
  }

  ghost function Range(start: nat, n: nat): set<nat>
  {
    set u | start <= u < start + n && Within(start, n, u)
  }

  /** Some aligned run of `2^k` units is wholly free. */
  ghost predicate HasFreeBlock(L: nat, units: set<nat>, k: nat)
  {
    exists a: nat :: Aligned(a, k) && a + Pow2(k) <= Pow2(L) && Range(a, Pow2(k)) <= units
  }

  /** `h` is the FREE cell of class `k` with the lowest index. */
  ghost predicate LowestFree(L: nat, free: set<nat>, k: nat, h: nat)
  {
    && InClass(L, k, h) && h in free
    && forall g :: InClass(L, k, g) && g in free ==> h <= g
  }

  ghost predicate NoneFree(L: nat, free: set<nat>, k: nat)
  {
    forall h :: InClass(L, k, h) ==> h !in free
  }

  /** Unit `u` starts the lowest FREE cell of the smallest class, from `k` up, that has a FREE cell. */
  ghost predicate BestFit(L: nat, free: set<nat>, k: nat, u: nat)
  {
    exists j: nat, h: nat ::
      && k <= j && LowestFree(L, free, j, h) && Leaf(L, u) == h * Pow2(j)
      && forall i :: k <= i < j ==> NoneFree(L, free, i)
  }

  /** What acquiring `n` units in a cell of class `k` does to the FREE cells. */
  ghost predicate Acquired(L: nat, before: set<nat>, after: set<nat>, k: nat, n: nat, r: Option<nat>)
  {
    match r
    case None =>
      !HasFreeBlock(L, Units(L, before), k) && after == before
    case Some(u) =>
      && Aligned(u, k) && u + Pow2(k) <= Pow2(L)
      && Range(u, Pow2(k)) <= Units(L, before)
      && Units(L, after) == Units(L, before) - Range(u, n)
      && BestFit(L, before, k, u)
  }

  /** One call of `AcquireUnits`. */
  ghost predicate AcquireStep(L: nat, before: seq<bv64>, n: nat, r: Option<nat>, after: seq<bv64>)
  {
    && WellFormed(L, after)
    && Acquired(L, FreeCells(L, before), FreeCells(L, after), SizeClass(n), n, r)
    && (r.None? ==> after == before)
  }

  ghost predicate Outstanding(L: nat, table: seq<bv64>, start: nat, n: nat)
  {
    (n == 0 || start + n <= Pow2(L)) && Range(start, n) !! FreeUnits(L, table)
  }

  /** One call of `ReleaseUnits`. */
  ghost predicate ReleaseStep(L: nat, before: seq<bv64>, start: nat, n: nat, after: seq<bv64>)
  {
    && WellFormed(L, after)
    && FreeUnits(L, after) == FreeUnits(L, before) + Range(start, n)
  }

  // ---- layout ----

  lemma CellInTable(L: nat, h: nat)
    requires 6 <= L && IsCell(L, h)
    ensures h / 64 < TableLength(L)
  {
    Pow2Monotone(6, L);
    assert Pow2(6) == 64;
  }

  /** The bit offset `get` and `set` compute for a unit is the heap index of its cell. */
  lemma OffsetOfUnit(L: nat, k: nat, u: nat)
    requires k <= L
    ensures Pow2(L - k) + Shr(u, k) == CellOf(L, k, u)
    ensures u < Pow2(L) ==> Shr(u, k) < Pow2(L - k)
  {
    Pow2Add(L - k, k);
    AlignedMultiple(Pow2(L - k), k);
    ShrInterval(u, k, Shr(u, k));
    var i, p := Shr(u, k), Pow2(k);
    MulDistribute(Pow2(L - k), i, p);
    MulDistribute(Pow2(L - k), i + 1, p);
    ShrInterval(Leaf(L, u), k, Pow2(L - k) + i);
    if u < Pow2(L) {
      LeafClass(L, k, u);
    }
  }

  /** A cell and its units: an aligned run. */
  lemma CellRange(L: nat, k: nat, u: nat)
    requires Aligned(u, k) && u + Pow2(k) <= Pow2(L)
    ensures k <= L && InClass(L, k, CellOf(L, k, u))
    ensures Leaf(L, u) == CellOf(L, k, u) * Pow2(k)
    ensures Block(L, k, CellOf(L, k, u)) == Range(u, Pow2(k))
  {
    if k > L {
      Pow2Monotone(L, k);
      assert false;
    }
    Pow2Add(L - k, k);
    AlignedMultiple(Pow2(L - k), k);
    AlignedSum(Pow2(L), u, k);
    AlignedShr(Leaf(L, u), k);
    LeafClass(L, k, u);
    BlockIsInterval(L, k, CellOf(L, k, u), u);
  }

  lemma RangeOfCell(L: nat, k: nat, h: nat) returns (u: nat)
    requires InClass(L, k, h)
    ensures Aligned(u, k) && u + Pow2(k) <= Pow2(L)
    ensures CellOf(L, k, u) == h && Leaf(L, u) == h * Pow2(k)
  {
    u := FirstUnit(L, k, h);
    BlockIsInterval(L, k, h, u);
    Pow2Add(L - k, k);
    AlignedMultiple(Pow2(L - k), k);
    AlignedMultiple(h, k);
    AlignedDifference(h * Pow2(k), Pow2(L), k);
  }

  lemma FreeBlockIsFullCell(L: nat, units: set<nat>, k: nat)
    ensures HasFreeBlock(L, units, k) <==> exists h :: InClass(L, k, h) && Full(L, units, k, h)
  {
    if HasFreeBlock(L, units, k) {
      var a: nat :| Aligned(a, k) && a + Pow2(k) <= Pow2(L) && Range(a, Pow2(k)) <= units;
      CellRange(L, k, a);
      assert Full(L, units, k, CellOf(L, k, a));
    }
    if h: nat :| InClass(L, k, h) && Full(L, units, k, h) {
      var u := RangeOfCell(L, k, h);
      CellRange(L, k, u);
    }
  }

  /** `u` with bit `k` flipped. */
  function SiblingUnit(k: nat, u: nat): int
  {
    if Shr(u, k) % 2 == 0 then u + Pow2(k) else u - Pow2(k)
  }

  /** `u` with its low `k + 1` bits cleared. */
  function ParentUnit(k: nat, u: nat): nat
  {
    Shr(u, k + 1) * Pow2(k + 1)
  }

  lemma SiblingCell(L: nat, k: nat, u: nat)
    requires k < L && Aligned(u, k) && u + Pow2(k) <= Pow2(L)
    ensures var s := SiblingUnit(k, u);
            && s >= 0 && Aligned(s, k) && s + Pow2(k) <= Pow2(L)
            && CellOf(L, k, s) == Buddy(CellOf(L, k, u))
  {
    CellRange(L, k, u);
    var h := CellOf(L, k, u);
    BuddyClass(L, k, h);
    var s := RangeOfCell(L, k, Buddy(h));
    OffsetOfUnit(L, k, u);
    BuddyOffset(h, Pow2(k));
    SameParity(Pow2(L - k - 1), Shr(u, k), h);
    assert s == SiblingUnit(k, u);
  }

  lemma SameParity(q: nat, i: nat, h: nat)
    requires h == 2 * q + i
    ensures h % 2 == i % 2
  {
  }

  lemma BuddyOffset(h: nat, p: nat)
    requires h > 0
    ensures Buddy(h) * p == if h % 2 == 0 then h * p + p else h * p - p
  {
  }

  lemma ParentCell(L: nat, k: nat, u: nat)
    requires k < L && Aligned(u, k) && u + Pow2(k) <= Pow2(L)
    ensures var p := ParentUnit(k, u);
            && Aligned(p, k + 1) && p + Pow2(k + 1) <= Pow2(L)
            && CellOf(L, k + 1, p) == CellOf(L, k, u) / 2
  {
    CellRange(L, k, u);
    var h := CellOf(L, k, u);
    ShrClass(L, k, h, 1);
    assert Shr(h, 1) == h / 2;
    var p := RangeOfCell(L, k + 1, h / 2);
    ShrStep(Leaf(L, u), k);
    OffsetOfUnit(L, k + 1, u);
    OffsetOfUnit(L, k + 1, p);
    AlignedShr(p, k + 1);
  }

  // ---- the allocator ----

  class BitMapPageAllocator {
    const logUnits: nat
    var table: array<bv64>

    ghost predicate Valid()
      reads this, table
    {
      WellFormed(logUnits, table[..])
    }

    ghost predicate Ready()
      reads this, table
    {
      Sized(logUnits, table[..])
    }

    ghost function Cells(): set<nat>
      reads this, table
    {
      FreeCells(logUnits, table[..])
    }

    ghost function Free(): set<nat>
      reads this, table
    {
      FreeUnits(logUnits, table[..])
    }

    constructor (logUnits: nat)
      requires 6 <= logUnits
      ensures this.logUnits == logUnits && Valid() && fresh(table)
      ensures Free() == {}
    {
      this.logUnits := logUnits;
      this.table := new bv64[TableLength(logUnits)](_ => 0);
      new;
      forall b: nat
        ensures !BitAt(table[..], b)
      {
        BitOfZero(Shift(b));
      }
    }

    function Get(sc: nat, i: nat): (v: bv64)
      requires Ready() && sc <= logUnits && i < Pow2(logUnits - sc)
      reads this, table
      ensures v == if Pow2(logUnits - sc) + i in Cells() then FREE else USED
    {
      var bitOffset := Pow2(logUnits - sc) + i;
      Pow2Monotone(logUnits - sc + 1, logUnits + 1);
      CellInTable(logUnits, bitOffset);
      var shift := Shift(bitOffset);
      var entry := table[bitOffset / 64];
      (entry >> shift) & 1
    }

    method Set(sc: nat, i: nat, v: bv64)
      requires Ready() && sc <= logUnits && i < Pow2(logUnits - sc) && (v == FREE || v == USED)
      modifies table
      ensures Ready()
      ensures Cells() == if v == FREE then old(Cells()) + {Pow2(logUnits - sc) + i}
                         else old(Cells()) - {Pow2(logUnits - sc) + i}
    {
      var bitOffset := Pow2(logUnits - sc) + i;
      Pow2Monotone(logUnits - sc + 1, logUnits + 1);
      CellInTable(logUnits, bitOffset);
      var shift := Shift(bitOffset);
      var entry := table[bitOffset / 64];
      var newEntry := WithBit(entry, shift, v);
      table[bitOffset / 64] := newEntry;
      ghost var before := old(table[..]);
      assert table[..] == before[bitOffset / 64 := newEntry];
      forall b: nat
        ensures BitAt(table[..], b) == if b == bitOffset then v == FREE else BitAt(before, b)
      {
        BitAfterStore(before, bitOffset, v, b);
      }
    }

    function GetUnit(sc: nat, unit: nat): (v: bv64)
      requires Ready() && sc <= logUnits && unit < Pow2(logUnits)
      reads this, table
      ensures v == if CellOf(logUnits, sc, unit) in Cells() then FREE else USED
    {
      OffsetOfUnit(logUnits, sc, unit);
      Get(sc, Shr(unit, sc))
    }

    method SetUnit(sc: nat, unit: nat, v: bv64)
      requires Ready() && sc <= logUnits && unit < Pow2(logUnits) && (v == FREE || v == USED)
      modifies table
      ensures Ready()
      ensures Cells() == if v == FREE then old(Cells()) + {CellOf(logUnits, sc, unit)}
                         else old(Cells()) - {CellOf(logUnits, sc, unit)}
    {
      OffsetOfUnit(logUnits, sc, unit);
      Set(sc, Shr(unit, sc), v);
    }

    /** Hand the whole heap to the allocator. */
    method Init()
      requires Valid() && Free() == {}
      modifies table
      ensures Valid()
      ensures Free() == Range(0, Pow2(logUnits))
    {
      var L := logUnits;
      AlignedZero(L);
      CellRange(L, L, 0);
      OffsetOfUnit(L, L, 0);
      AddCell(L, Cells(), L, CellOf(L, L, 0));
      SetUnit(logUnits, 0, FREE);
    }

    /** Mark the FREE cell found at an index USED. */
    method TakeIndex(sc: nat, index: nat) returns (r: Option<nat>)
      requires Ready() && sc <= logUnits && index < Pow2(logUnits - sc)
      requires Pow2(logUnits - sc) + index in Cells()
      requires NoneFreeBelow(Cells(), Pow2(logUnits - sc), index)
      modifies table
      ensures Ready()
      ensures TookLowest(logUnits, old(Cells()), Cells(), sc, r) && r.Some?
    {
      Set(sc, index, USED);
      CellAtIndex(logUnits, sc, index);
      r := Some(index * Pow2(sc));
    }

    /** The search where a class fills whole words: empty words are skipped. */
    method SearchWords(sc: nat) returns (r: Option<nat>)
      requires Ready() && sc <= logUnits - 6
      modifies table
      ensures Ready()
      ensures TookLowest(logUnits, old(Cells()), Cells(), sc, r)
      ensures r.None? ==> table[..] == old(table[..])
    {
      var base := Pow2(logUnits - 6 - sc);
      ghost var first := Pow2(logUnits - sc);
      WordsOfClass(logUnits, sc);
      for i := 0 to base
        invariant table[..] == old(table[..])
        invariant NoneFreeBelow(Cells(), first, 64 * i)
      {
        assert base + i < table.Length;
        if table[base + i] != 0 {
          for j := 0 to 64
            invariant table[..] == old(table[..])
            invariant NoneFreeBelow(Cells(), first, 64 * i + j)
          {
            var index := i * 64 + j;
            if Get(sc, index) == FREE {
              r := TakeIndex(sc, index);
              return;
            }
          }
        } else {
          EmptyWord(logUnits, table[..], base + i);
          assert NoneFreeBelow(Cells(), first, 64 * (i + 1));
        }
      }
      return None;
    }

    /** The search where a class is shorter than a word. */
    method SearchEntries(sc: nat) returns (r: Option<nat>)
      requires Ready() && sc <= logUnits
      modifies table
      ensures Ready()
      ensures TookLowest(logUnits, old(Cells()), Cells(), sc, r)
      ensures r.None? ==> table[..] == old(table[..])
    {
      for i := 0 to Pow2(logUnits - sc)
        invariant table[..] == old(table[..])
        invariant NoneFreeBelow(Cells(), Pow2(logUnits - sc), i)
      {
        if Get(sc, i) == FREE {
          r := TakeIndex(sc, i);
          return;
        }
      }
      return None;
    }

    /** Find the lowest FREE cell of a class and mark it USED. */
    method SearchAndAllocateCell(sc: nat) returns (r: Option<nat>)
      requires Ready() && sc <= logUnits
      modifies table
      ensures Ready()
      ensures TookLowest(logUnits, old(Cells()), Cells(), sc, r)
      ensures r.None? ==> table[..] == old(table[..])
    {
      if logUnits - 6 >= sc {
        r := SearchWords(sc);
      } else {
        r := SearchEntries(sc);
      }
    }

    /** Allocate a power-of-two cell, splitting a larger one when the class has none. */
    method AcquireCell(sc: nat) returns (r: Option<nat>)
      requires Valid()
      modifies table
      ensures Valid()
      ensures Acquired(logUnits, old(Cells()), Cells(), sc, Pow2(sc), r)
      ensures r.None? ==> table[..] == old(table[..])
      decreases logUnits + 1 - sc
    {
      hide Acquired, TookLowest, Canonical, FreeCells;
      ghost var cells := Cells();
      if sc > logUnits {
        NoBlockAboveRoot(logUnits, cells, sc);
        return None;
      }
      r := SearchAndAllocateCell(sc);
      if r.Some? {
        AcquiredWhole(logUnits, cells, Cells(), sc, r.value);
        return;
      }
      r := AcquireCell(sc + 1);
      if r.None? {
        AcquiredNone(logUnits, cells, Cells(), sc);
        return;
      }
      AcquiredBySplit(logUnits, cells, Cells(), sc, r.value);
      SplitCell(sc, r.value);
    }

    /** Mark an acquired cell and its left half USED and its right half FREE. */
    method SplitCell(sc: nat, parent: nat)
      requires Ready() && sc < logUnits && parent + Pow2(sc) < Pow2(logUnits)
      requires CellOf(logUnits, sc, parent) != CellOf(logUnits, sc, parent + Pow2(sc))
      requires CellOf(logUnits, sc + 1, parent) !in Cells() && CellOf(logUnits, sc, parent) !in Cells()
      modifies table
      ensures Ready()
      ensures Cells() == old(Cells()) + {CellOf(logUnits, sc, parent + Pow2(sc))}
    {
      SetUnit(sc + 1, parent, USED);
      SetUnit(sc, parent, USED);
      SetUnit(sc, parent + Pow2(sc), FREE);
    }

    /** Release a power-of-two cell, merging it with its buddy as long as that is FREE. */
    method ReleaseCell(sc: nat, unit: nat)
      requires Valid()
      requires Aligned(unit, sc) && unit + Pow2(sc) <= Pow2(logUnits)
      requires Range(unit, Pow2(sc)) !! Free()
      modifies table
      ensures Valid()
      ensures Free() == old(Free()) + Range(unit, Pow2(sc))
      decreases logUnits - sc, 1
    {
      ghost var cells := Cells();
      ReleaseFacts(logUnits, cells, sc, unit);
      assert GetUnit(sc, unit) == USED;
      SetUnit(sc, unit, FREE);
      if sc < logUnits {
        SiblingCell(logUnits, sc, unit);
        var sibling := SiblingUnit(sc, unit);
        if GetUnit(sc, sibling) == FREE {
          Merge(sc, unit, sibling, cells);
        }
      }
    }

    /** Replace a released cell and its FREE sibling by their parent. */
    method Merge(sc: nat, unit: nat, sibling: nat, ghost cells: set<nat>)
      requires Ready() && Canonical(logUnits, cells)
      requires sc < logUnits && Aligned(unit, sc) && unit + Pow2(sc) <= Pow2(logUnits)
      requires Range(unit, Pow2(sc)) !! Units(logUnits, cells)
      requires sibling < Pow2(logUnits) && CellOf(logUnits, sc, sibling) == Buddy(CellOf(logUnits, sc, unit))
      requires CellOf(logUnits, sc, sibling) in cells && CellOf(logUnits, sc, unit) !in cells
      requires Cells() == cells + {CellOf(logUnits, sc, unit)}
      modifies table
      ensures Valid()
      ensures Free() == Units(logUnits, cells) + Range(unit, Pow2(sc))
      decreases logUnits - sc, 0
    {
      MergeFacts(logUnits, cells, sc, unit);
      ClearPair(sc, unit, sibling);
      assert Cells() == cells - {CellOf(logUnits, sc, sibling)};
      var parent := ParentUnit(sc, unit);
      assert GetUnit(sc + 1, parent) == USED;
      ReleaseCell(sc + 1, parent);
    }

    method ClearPair(sc: nat, unit: nat, sibling: nat)
      requires Ready() && sc <= logUnits && unit < Pow2(logUnits) && sibling < Pow2(logUnits)
      modifies table
      ensures Ready()
      ensures Cells() == old(Cells()) - {CellOf(logUnits, sc, unit), CellOf(logUnits, sc, sibling)}
    {
      SetUnit(sc, unit, USED);
      SetUnit(sc, sibling, USED);
    }

    /** Release a run of units as the aligned cells that tile it. */
    method ReleaseUnits(start: nat, units: nat)
      requires Valid()
      requires Outstanding(logUnits, table[..], start, units)
      modifies table
      ensures ReleaseStep(logUnits, old(table[..]), start, units, table[..])
    {
      var from, left := start, units;
      var limit := start + units;
      while from < limit
        invariant start <= from <= limit && from + left == limit
        invariant Valid()
        invariant Free() == old(Free()) + Range(start, from - start)
        decreases left
      {
        var sizeClass := TileClass(from, left);
        var end := from + Pow2(sizeClass);
        assert Aligned(from, sizeClass) && end <= limit;
        ReleaseCell(sizeClass, from);
        from := end;
        left := limit - end;
      }
      assert from - start == units;
    }

    /** Allocate a run of units: a cell of the next power of two, its unused tail given back. */
    method AcquireUnits(units: nat) returns (r: Option<nat>)
      requires Valid()
      modifies table
      ensures Valid()
      ensures AcquireStep(logUnits, old(table[..]), units, r, table[..])
    {
      var sizeClass := SizeClass(units);
      r := AcquireCell(sizeClass);
      if r.None? {
        return;
      }
      if units != Pow2(sizeClass) {
        ReleaseUnits(r.value + units, Pow2(sizeClass) - units);
      }
    }
  }

  lemma NoBlockAboveRoot(L: nat, free: set<nat>, k: nat)
    requires k > L
    ensures Acquired(L, free, free, k, Pow2(k), None)
  {
    Pow2Monotone(L, k);
  }

  lemma AcquiredNone(L: nat, free: set<nat>, after: set<nat>, k: nat)
    requires Canonical(L, free) && k <= L && TookLowest(L, free, free, k, None)
    requires Acquired(L, free, after, k + 1, Pow2(k + 1), None)
    ensures Acquired(L, free, after, k, Pow2(k), None)
  {
    NoFreeBlockHere(L, free, k);
  }

  /** Without a FREE cell of class `k`, a free block of that size lies in a free block of twice the size. */
  lemma NoFreeBlockHere(L: nat, free: set<nat>, k: nat)
    requires Canonical(L, free) && k <= L && NoneFree(L, free, k)
    ensures HasFreeBlock(L, Units(L, free), k) <==> HasFreeBlock(L, Units(L, free), k + 1)
  {
    var units := Units(L, free);
    FreeBlockIsFullCell(L, units, k);
    FreeBlockIsFullCell(L, units, k + 1);
    if h: nat :| InClass(L, k, h) && Full(L, units, k, h) {
      FreeIffMaximal(L, free, k, h);
      ShrClass(L, k, h, 1);
      assert Shr(h, 1) == h / 2;
      assert Full(L, units, k + 1, h / 2);
    }
    var j := k + 1;
    if h: nat :| InClass(L, j, h) && Full(L, units, j, h) {
      BlockHalves(L, k, h);
      assert Full(L, units, k, 2 * h);
    }
  }

  /** The two cells a cell of class `k + 1` is split into. */
  lemma HalvesOf(L: nat, k: nat, u: nat, left: nat, right: nat)
    requires Aligned(u, k + 1) && u + Pow2(k + 1) <= Pow2(L)
    requires left == CellOf(L, k, u) && right == CellOf(L, k, u + Pow2(k))
    ensures k + 1 <= L && Aligned(u, k) && Aligned(u + Pow2(k), k)
    ensures right == left + 1 && Buddy(right) == left
  {
    hide Aligned, CellOf;
    ClassFits(L, k + 1, u);
    AlignedLess(u, k, k + 1);
    AlignedPow2(k);
    AlignedSum(u, Pow2(k), k);
    NextCell(L, k, u, left, right);
    EvenCell(L, k, u, left);
  }

  lemma ClassFits(L: nat, k: nat, u: nat)
    requires Aligned(u, k) && u + Pow2(k) <= Pow2(L)
    ensures k <= L
  {
    CellRange(L, k, u);
  }

  lemma EvenCell(L: nat, k: nat, u: nat, left: nat)
    requires Aligned(u, k + 1) && k + 1 <= L && left == CellOf(L, k, u)
    ensures left % 2 == 0
  {
    hide Aligned, CellOf, Shr;
    OffsetOfUnit(L, k, u);
    AlignedIsEven(u, k);
    SameParity(Pow2(L - k - 1), Shr(u, k), left);
  }

  lemma NextCell(L: nat, k: nat, u: nat, left: nat, right: nat)
    requires Aligned(u, k) && Aligned(u + Pow2(k), k) && u + 2 * Pow2(k) <= Pow2(L)
    requires left == CellOf(L, k, u) && right == CellOf(L, k, u + Pow2(k))
    ensures right == left + 1
  {
    hide Aligned, Block, Range, CellOf;
    CellRange(L, k, u);
    CellRange(L, k, u + Pow2(k));
    OneApart(left, right, Pow2(k));
  }

  lemma OneApart(l: nat, r: nat, p: nat)
    requires p > 0 && r * p == l * p + p
    ensures r == l + 1
  {
    MulDistribute(l, 1, p);
    if r < l + 1 {
      MulOrder(r, l + 1, p);
    } else if r > l + 1 {
      MulOrder(l + 1, r, p);
    }
  }

  /** What the split of an acquired cell of class `k + 1` relies on and leaves. */
  lemma SplitFacts(L: nat, free: set<nat>, k: nat, u: nat)
    requires Canonical(L, free) && Aligned(u, k + 1) && u + Pow2(k + 1) <= Pow2(L)
    requires Range(u, Pow2(k + 1)) !! Units(L, free)
    ensures var left, right := CellOf(L, k, u), CellOf(L, k, u + Pow2(k));
            && Aligned(u, k) && k + 1 <= L && CellOf(L, k + 1, u) !in free && left !in free && left != right
            && Canonical(L, free + {right})
            && Units(L, free + {right}) == Units(L, free) + Range(u + Pow2(k), Pow2(k))
  {
    hide Aligned, Block, Units, Canonical, CellOf;
    var left, right := CellOf(L, k, u), CellOf(L, k, u + Pow2(k));
    HalvesOf(L, k, u, left, right);
    CellRange(L, k + 1, u);
    CellRange(L, k, u);
    CellRange(L, k, u + Pow2(k));
    assert Range(u, Pow2(k)) <= Range(u, Pow2(k + 1));
    assert Range(u + Pow2(k), Pow2(k)) <= Range(u, Pow2(k + 1));
    NothingAround(L, free, k, left);
    assert Shr(left, 0) == left;
    NothingAround(L, free, k + 1, CellOf(L, k + 1, u));
    assert Shr(CellOf(L, k + 1, u), 0) == CellOf(L, k + 1, u);
    AddCell(L, free, k, right);
  }

  lemma AlignedIsEven(u: nat, k: nat)
    requires Aligned(u, k + 1)
    ensures Shr(u, k) % 2 == 0
  {
    hide Aligned, Shr;
    AlignedShr(u, k + 1);
    var q, p := Shr(u, k + 1), Pow2(k);
    MulAssoc(q, 2, p);
    AlignedMultiple(q * 2, k);
  }

  /** What releasing a cell relies on, and leaves when its buddy is not FREE. */
  lemma ReleaseFacts(L: nat, free: set<nat>, k: nat, u: nat)
    requires Canonical(L, free) && Aligned(u, k) && u + Pow2(k) <= Pow2(L)
    requires Range(u, Pow2(k)) !! Units(L, free)
    ensures var h := CellOf(L, k, u);
            && k <= L && h !in free
            && (k == L || Buddy(h) !in free ==>
                  && Canonical(L, free + {h})
                  && Units(L, free + {h}) == Units(L, free) + Range(u, Pow2(k)))
  {
    CellRange(L, k, u);
    var h := CellOf(L, k, u);
    NothingAround(L, free, k, h);
    assert Shr(h, 0) == h;
    if k == L || Buddy(h) !in free {
      AddCell(L, free, k, h);
    }
  }

  /** What merging a released cell with its FREE buddy relies on and leaves. */
  lemma MergeFacts(L: nat, free: set<nat>, k: nat, u: nat)
    requires Canonical(L, free) && k < L && Aligned(u, k) && u + Pow2(k) <= Pow2(L)
    requires Range(u, Pow2(k)) !! Units(L, free)
    requires Buddy(CellOf(L, k, u)) in free
    ensures var h := CellOf(L, k, u);
            var rest, parent := free - {Buddy(h)}, ParentUnit(k, u);
            && Canonical(L, rest)
            && Aligned(parent, k + 1) && parent + Pow2(k + 1) <= Pow2(L)
            && Range(parent, Pow2(k + 1)) !! Units(L, rest)
            && CellOf(L, k + 1, parent) !in rest
            && Units(L, rest) + Range(parent, Pow2(k + 1)) == Units(L, free) + Range(u, Pow2(k))
  {
    var h := CellOf(L, k, u);
    CellRange(L, k, u);
    BuddyClass(L, k, h);
    RemoveCell(L, free, k, Buddy(h));
    ParentCell(L, k, u);
    CellRange(L, k + 1, ParentUnit(k, u));
    BlockHalves(L, k, h / 2);
    assert {2 * (h / 2), 2 * (h / 2) + 1} == {h, Buddy(h)};
    NothingAround(L, free - {Buddy(h)}, k + 1, h / 2);
    assert Shr(h / 2, 0) == h / 2;
  }

  lemma AcquiredWhole(L: nat, free: set<nat>, after: set<nat>, k: nat, u: nat)
    requires Canonical(L, free) && TookLowest(L, free, after, k, Some(u))
    ensures Canonical(L, after)
    ensures Acquired(L, free, after, k, Pow2(k), Some(u))
  {
    CellRange(L, k, u);
    RemoveCell(L, free, k, CellOf(L, k, u));
  }

  lemma AcquiredBySplit(L: nat, free: set<nat>, rest: set<nat>, k: nat, u: nat)
    requires TookLowest(L, free, free, k, None) && Canonical(L, rest)
    requires Acquired(L, free, rest, k + 1, Pow2(k + 1), Some(u))
    ensures u + Pow2(k) < Pow2(L)
    ensures var left, right := CellOf(L, k, u), CellOf(L, k, u + Pow2(k));
            && k + 1 <= L && CellOf(L, k + 1, u) !in rest && left !in rest && left != right
            && Canonical(L, rest + {right})
            && Acquired(L, free, rest + {right}, k, Pow2(k), Some(u))
  {
    SplitFacts(L, rest, k, u);
    BestFitBelow(L, free, k, u);
  }

  lemma BestFitBelow(L: nat, free: set<nat>, k: nat, u: nat)
    requires NoneFree(L, free, k) && BestFit(L, free, k + 1, u)
    ensures BestFit(L, free, k, u)
  {
    var j: nat, h: nat :| k + 1 <= j && LowestFree(L, free, j, h) && Leaf(L, u) == h * Pow2(j)
                          && forall i :: k + 1 <= i < j ==> NoneFree(L, free, i);
    assert forall i :: k <= i < j ==> i == k || NoneFree(L, free, i);
  }

  ghost predicate NoneFreeBelow(free: set<nat>, first: nat, i: nat)
  {
    forall g :: first <= g < first + i ==> g !in free
  }

  /** The outcome of a search: the lowest FREE cell of the class taken out, or none there. */
  ghost predicate TookLowest(L: nat, before: set<nat>, after: set<nat>, k: nat, r: Option<nat>)
  {
    match r
    case None => NoneFree(L, before, k) && after == before
    case Some(u) =>
      && Aligned(u, k) && u + Pow2(k) <= Pow2(L)
      && LowestFree(L, before, k, CellOf(L, k, u))
      && after == before - {CellOf(L, k, u)}
  }

  /** A class of at least 64 cells fills the words from `2^(L - 6 - k)` to twice that. */
  lemma WordsOfClass(L: nat, k: nat)
    requires 6 <= L && k <= L - 6
    ensures var base := Pow2(L - 6 - k);
            64 * base == Pow2(L - k) && 2 * base <= TableLength(L)
  {
    Pow2Add(L - 6 - k, 6);
    assert Pow2(6) == 64;
    Pow2Monotone(L - k, L);
  }

  lemma EmptyWord(L: nat, table: seq<bv64>, w: nat)
    requires w < |table| && table[w] == 0
    ensures forall g :: 64 * w <= g < 64 * w + 64 ==> g !in FreeCells(L, table)
  {
    forall g | 64 * w <= g < 64 * w + 64
      ensures !BitAt(table, g)
    {
      assert g / 64 == w;
      BitOfZero(Shift(g));
    }
  }

  /** The unit returned for index `i` of a class starts that cell. */
  lemma CellAtIndex(L: nat, k: nat, i: nat)
    requires k <= L && i < Pow2(L - k)
    ensures i * Pow2(k) + Pow2(k) <= Pow2(L) && Aligned(i * Pow2(k), k)
    ensures CellOf(L, k, i * Pow2(k)) == Pow2(L - k) + i
    ensures Leaf(L, i * Pow2(k)) == (Pow2(L - k) + i) * Pow2(k)
  {
    AlignedMultiple(i, k);
    OffsetOfUnit(L, k, i * Pow2(k));
    Pow2Add(L - k, k);
    MulOrder(i, Pow2(L - k), Pow2(k));
    MulDistribute(Pow2(L - k), i, Pow2(k));
  }
}
