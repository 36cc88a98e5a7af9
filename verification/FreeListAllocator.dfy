/**
 The heap allocator: size-class lists of cells of `2^c` bytes, refilled by ranges of 2M pages from a page
 resource. The range the page resource would return is a parameter of the allocating methods.
 */
module FreeListAllocator {
  import opened Options
  import opened Bits
  import opened SizeClassLists

  const LOG_2M: nat := 21
  const LOG_MIN_SIZE: nat := 4

  /** A request of `std::alloc::Layout`: `align` is a power of two. */
  datatype Layout = Layout(size: nat, logAlign: nat) {
    function PadToAlign(): nat
    {
      (size + Pow2(logAlign) - 1) / Pow2(logAlign) * Pow2(logAlign)
    }
  }

  function CellSize(layout: Layout): nat
  {
    if layout.PadToAlign() >= Pow2(LOG_MIN_SIZE) then layout.PadToAlign() else Pow2(LOG_MIN_SIZE)
  }

  lemma PaddedSize(layout: Layout)
    ensures layout.size <= layout.PadToAlign()
    ensures layout.size > 0 ==> Pow2(layout.logAlign) <= layout.PadToAlign()
    ensures layout.size == 0 ==> layout.PadToAlign() == 0
  {
    var p := Pow2(layout.logAlign);
    var x := layout.size + p - 1;
    var q := x / p;
    assert x == q * p + x % p;
    if layout.size == 0 {
      DivModUnique(x, p, 0);
    } else {
      MulAtLeast(q, p);
      if q < 1 {
        MulOrder(q, 1, p);
        assert false;
      }
    }
  }

  /** `2^c` bytes hold the size rounded up to a multiple of the alignment. */
  ghost predicate Holds(layout: Layout, c: nat)
  {
    exists m: nat :: Aligned(m, layout.logAlign) && layout.size <= m <= Pow2(c)
  }

  lemma PaddedIsLeast(layout: Layout, m: nat)
    requires Aligned(m, layout.logAlign) && layout.size <= m
    ensures layout.PadToAlign() <= m
  {
    var k: nat :| Multiple(k, layout.logAlign) == m;
    RoundedUp(layout.size, Pow2(layout.logAlign), k);
  }

  lemma RoundedUp(x: nat, p: nat, k: nat)
    requires p > 0 && x <= k * p
    ensures (x + p - 1) / p * p <= k * p
  {
    var q := (x + p - 1) / p;
    assert x + p - 1 == q * p + (x + p - 1) % p;
    MulOrder(k, q, p);
    MulOrder(q, k, p);
  }

  /** The class of a layout is the least one, of 16 bytes or more, that holds it. */
  lemma ClassIsLeast(layout: Layout, c: nat)
    ensures SizeClass(CellSize(layout)) <= c <==> LOG_MIN_SIZE <= c && Holds(layout, c)
  {
    SizeClassAtMost(CellSize(layout), c);
    PaddedSize(layout);
    PaddedIsAligned(layout);
    if LOG_MIN_SIZE <= c {
      Pow2Monotone(LOG_MIN_SIZE, c);
      if m: nat :| Aligned(m, layout.logAlign) && layout.size <= m <= Pow2(c) {
        PaddedIsLeast(layout, m);
      }
    } else {
      Pow2Monotone(c, LOG_MIN_SIZE);
    }
  }

  lemma PaddedIsAligned(layout: Layout)
    ensures Aligned(layout.PadToAlign(), layout.logAlign)
  {
    AlignedMultiple((layout.size + Pow2(layout.logAlign) - 1) / Pow2(layout.logAlign), layout.logAlign);
  }

  lemma SmallestCell(layout: Layout)
    ensures SizeClass(CellSize(layout)) >= LOG_MIN_SIZE
  {
    if SizeClass(CellSize(layout)) < LOG_MIN_SIZE {
      Pow2Monotone(SizeClass(CellSize(layout)), LOG_MIN_SIZE);
    }
  }

  /** Cells of the class of a layout hold it, and honour its alignment exactly when it is not an empty layout
      aligned more strictly than the smallest cell. */
  lemma CellsFitLayout(layout: Layout)
    ensures layout.size <= CellSize(layout) <= Pow2(SizeClass(CellSize(layout)))
    ensures (forall a: nat :: Aligned(a, SizeClass(CellSize(layout))) ==> Aligned(a, layout.logAlign)) <==>
            layout.size > 0 || layout.logAlign <= LOG_MIN_SIZE
  {
    var align, sc := layout.logAlign, SizeClass(CellSize(layout));
    PaddedSize(layout);
    if layout.size > 0 || align <= LOG_MIN_SIZE {
      if sc < align {
        Pow2Monotone(sc, align);
        Pow2Monotone(align, LOG_MIN_SIZE + align);
        SmallestCell(layout);
        assert false;
      }
      forall a: nat | Aligned(a, sc)
        ensures Aligned(a, align)
      {
        AlignedLess(a, align, sc);
      }
    } else {
      SizeClassOfPow2(LOG_MIN_SIZE);
      AlignedPow2(sc);
      AlignedZero(align);
      Pow2Monotone(sc, align);
      if Aligned(Pow2(sc), align) {
        AlignedDifference(Pow2(sc), 0, align);
      }
    }
  }

  /** An empty layout with an alignment of 32 gets a cell of 16 bytes, which need not be aligned to 32. */
  lemma EmptyLayoutIsMisaligned()
    ensures var sc := SizeClass(CellSize(Layout(0, 5)));
            Aligned(16, sc) && !Aligned(16, 5)
  {
    assert Pow2(4) == 16 && Pow2(5) == 32;
    PaddedSize(Layout(0, 5));
    SizeClassOfPow2(4);
    AlignedPow2(4);
    AlignedIff(16, 5);
  }

  /** An allocation succeeds, or the source panics: the page resource had nothing to give, or a cell needs a
      class that the table does not have. */
  datatype Outcome = Got(start: nat) | NoPages | NoClass

  /** The log of the bytes requested from the page resource: twice the cell, and at least 4M. */
  function LogRefill(page: nat, sc: nat): nat
  {
    (if sc >= page then sc else page) + 1
  }

  /** The source asks for twice the pages that hold the cell. */
  function RefillPages(page: nat, sc: nat): nat
  {
    (Pow2(sc) + Pow2(page) - 1) / Pow2(page) * 2
  }

  lemma RefillBytes(page: nat, sc: nat)
    ensures RefillPages(page, sc) * Pow2(page) == Pow2(LogRefill(page, sc))
    ensures Pow2(LogRefill(page, sc)) == 2 * if Pow2(sc) >= Pow2(page) then Pow2(sc) else Pow2(page)
  {
    var p, q := Pow2(page), 1;
    if sc >= page {
      Pow2Add(sc - page, page);
      Pow2Monotone(page, sc);
      q := Pow2(sc - page);
    } else {
      Pow2Monotone(sc, page);
    }
    PagesHolding(Pow2(sc), p, q);
    Twice(q, p);
  }

  lemma PagesHolding(bytes: nat, p: nat, q: nat)
    requires p > 0 && q * p - p < bytes <= q * p
    ensures (bytes + p - 1) / p == q
  {
    MulOrder(q, q + 1, p);
    DivModUnique(bytes + p - 1, p, q);
  }

  lemma Twice(q: nat, p: nat)
    ensures (q * 2) * p == 2 * (q * p)
  {
  }

  // ---- the tiling of a refill of `2^n` bytes from `start` ----

  /** The first multiple of `2^n` from `start` on: up to here the tiles grow. */
  ghost function Peak(start: nat, n: nat): nat
  {
    AlignUp(start, n)
  }

  /** The step of the tiling loop at `cursor`. */
  function TileSize(cursor: nat, end: nat): (size: nat)
    requires cursor < end
    ensures 0 < size <= end - cursor
  {
    if Pow2(TrailingZeros(cursor)) <= end - cursor then Pow2(TrailingZeros(cursor)) else end - cursor
  }

  /** How much of a refill the tiles cover, counted from its start. */
  ghost function CoveredLength(start: nat, n: nat): nat
  {
    Peak(start, n) - start + Pow2(FloorClass(start + Pow2(n) - Peak(start, n)))
  }

  /** Before the peak a tile is as large as the alignment of the cursor; at the peak it is all the rest. */
  lemma TileSteps(start: nat, n: nat, cursor: nat)
    requires 0 < start <= cursor <= Peak(start, n) && cursor < start + Pow2(n)
    ensures var end := start + Pow2(n);
            var size := TileSize(cursor, end);
            && size > 0 && Aligned(cursor, FloorClass(size)) && FloorClass(size) <= n
            && (cursor < Peak(start, n) ==>
                  && size == Pow2(FloorClass(size)) && FloorClass(size) == TrailingZeros(cursor) < n
                  && cursor + size <= Peak(start, n))
            && (cursor == Peak(start, n) ==> size == end - cursor)
  {
    var peak, end, z := Peak(start, n), start + Pow2(n), TrailingZeros(cursor);
    if cursor < peak {
      AlignUpIsFirst(start, n, cursor);
      if z >= n {
        AlignedLess(cursor, n, z);
        assert false;
      }
      AlignedLess(peak, z, n);
      AlignedDifference(peak, cursor, z);
      Pow2Monotone(z, n);
      FloorClassAtLeast(Pow2(z), z);
      FloorClassAtMost(Pow2(z), z);
    } else {
      TrailingZerosOfPositive(cursor, n);
      Pow2Monotone(n, z);
      var f := FloorClass(end - cursor);
      FloorClassAtMost(end - cursor, n);
      AlignedLess(cursor, f, z);
    }
  }

  lemma TrailingZerosOfPositive(x: nat, n: nat)
    requires x > 0 && Aligned(x, n)
    ensures TrailingZeros(x) >= n
  {
    TrailingZerosAtLeast(x, n);
  }

  /** A place no tile steps over: the tile that starts there, or the one that ends the range, has class `m` or more. */
  ghost function Landing(start: nat, m: nat): int
  {
    var peak := Peak(start, m + 1);
    if start + Pow2(m + 1) - peak >= Pow2(m) then peak else peak - Pow2(m)
  }

  lemma LandingFacts(start: nat, m: nat)
    requires start > 0
    ensures start <= Landing(start, m) <= Peak(start, m + 1)
    ensures Aligned(Landing(start, m), m)
  {
    var peak := Peak(start, m + 1);
    AlignedLess(peak, m, m + 1);
    if Landing(start, m) != peak {
      AlignedPow2(m);
      AlignedDifference(peak, Pow2(m), m);
    }
  }

  lemma NoStepOver(b: nat, cursor: nat, m: nat)
    requires 0 < cursor < b && Aligned(b, m) && TrailingZeros(cursor) <= m
    ensures cursor + Pow2(TrailingZeros(cursor)) <= b
  {
    AlignedLess(b, TrailingZeros(cursor), m);
    AlignedDifference(b, cursor, TrailingZeros(cursor));
  }

  lemma LargeTile(start: nat, m: nat, cursor: nat)
    requires 0 < start <= cursor <= Peak(start, m + 1) && cursor < start + Pow2(m + 1)
    requires cursor <= Landing(start, m) < cursor + TileSize(cursor, start + Pow2(m + 1))
    ensures FloorClass(TileSize(cursor, start + Pow2(m + 1))) >= m
  {
    TileSteps(start, m + 1, cursor);
    LandingFacts(start, m);
    var b, z := Landing(start, m), TrailingZeros(cursor);
    var peak, size := Peak(start, m + 1), TileSize(cursor, start + Pow2(m + 1));
    if cursor == peak {
      FloorClassAtLeast(size, m);
    } else if cursor == b {
      TrailingZerosOfPositive(cursor, m);
    } else if z <= m {
      NoStepOver(b, cursor, m);
      assert false;
    }
  }

  /** What lies beyond the peak. */
  lemma RestOfRefill(start: nat, n: nat)
    ensures start + Pow2(n) - Peak(start, n) == if start % Pow2(n) == 0 then Pow2(n) else start % Pow2(n)
  {
    var up, p := AlignUp(start, n), Pow2(n);
    AlignedIff(start, n);
    if Aligned(start, n) {
      if up != start {
        AlignUpIsFirst(start, n, start);
      }
    } else {
      AlignedIff(up, n);
      RemainderBelow(start, up, p);
    }
  }

  lemma RemainderBelow(x: nat, up: nat, p: nat)
    requires p > 0 && x <= up < x + p && up % p == 0 && x % p != 0
    ensures x + p - up == x % p
  {
    var q := up / p;
    assert up == q * p;
    MulOrder(q - 1, q, p);
    DivModUnique(x, p, q - 1);
  }

  lemma FloorIsExact(r: nat)
    requires r > 0
    ensures Pow2(FloorClass(r)) == r <==> exists k: nat :: r == Pow2(k)
  {
    if k: nat :| r == Pow2(k) {
      FloorClassAtLeast(r, k);
      FloorClassAtMost(r, k);
    }
  }

  lemma CoversAll(start: nat, n: nat)
    ensures CoveredLength(start, n) <= Pow2(n)
    ensures CoveredLength(start, n) == Pow2(n) <==>
            start % Pow2(n) == 0 || exists k: nat :: start % Pow2(n) == Pow2(k)
  {
    hide Peak, FloorClass;
    RestOfRefill(start, n);
    RestIsPower(start + Pow2(n) - Peak(start, n), start % Pow2(n), n);
  }

  lemma RestIsPower(rest: nat, r: nat, n: nat)
    requires rest == if r == 0 then Pow2(n) else r
    ensures Pow2(FloorClass(rest)) <= rest
    ensures Pow2(FloorClass(rest)) == rest <==> r == 0 || exists k: nat :: r == Pow2(k)
  {
    hide FloorClass;
    FloorIsExact(rest);
  }

  /** The tiles cover the whole range exactly when what the start exceeds a multiple of its length by is zero
      or a power of two. */
  lemma RefillIsExact(start: nat, n: nat)
    requires start > 0
    ensures CoveredBy(Tiles(start, start + Pow2(n))) == Span(start, Pow2(n)) <==>
            start % Pow2(n) == 0 || exists k: nat :: start % Pow2(n) == Pow2(k)
  {
    hide CoveredBy, Tiles, CoveredLength;
    CoversAll(start, n);
    RefillTilesCover(start, n, start);
    SameSpan(start, CoveredLength(start, n), Pow2(n));
  }

  lemma SameSpan(start: nat, m: nat, n: nat)
    ensures Span(start, m) == Span(start, n) <==> m == n
  {
    if m < n {
      assert start + m in Span(start, n) && start + m !in Span(start, m);
    } else if n < m {
      assert start + n in Span(start, m) && start + n !in Span(start, n);
    }
  }

  lemma ThreeIsNoPower(m: nat, k: nat)
    ensures Pow2(k) != 3 * Pow2(m)
  {
    if k <= m + 1 {
      Pow2Monotone(k, m + 1);
    } else {
      Pow2Monotone(m + 2, k);
    }
  }

  /** A range that starts three quarters of its length above a multiple of it is not covered. */
  lemma RefillLeavesGapAt(start: nat, m: nat, q: nat)
    requires start == (4 * q + 3) * Pow2(m)
    ensures start > 0 && CoveredBy(Tiles(start, start + Pow2(m + 2))) != Span(start, Pow2(m + 2))
  {
    hide CoveredBy, Tiles, Span;
    var p := Pow2(m);
    assert Pow2(m + 2) == 4 * p;
    MulDistribute(4 * q, 3, p);
    MulAssoc(q, 4, p);
    DivModUnique(start, 4 * p, q);
    forall k: nat
      ensures start % Pow2(m + 2) != Pow2(k)
    {
      ThreeIsNoPower(m, k);
    }
    RefillIsExact(start, m + 2);
  }

  /** A program's heap that grew by three refills of 4M gets its next range of 16M here: 4M of it stay unlisted. */
  lemma RefillLeavesGap()
    ensures var start := 0x1000_00c0_0000;
            CoveredBy(Tiles(start, start + Pow2(24))) != Span(start, Pow2(24))
  {
    hide CoveredBy, Tiles, Span;
    Pow2Of22();
    RefillLeavesGapAt(0x1000_00c0_0000, 22, 0x10_0000);
  }

  lemma Pow2Of22()
    ensures Pow2(22) == 0x40_0000
  {
    assert Pow2(11) == 0x800;
    Pow2Add(11, 11);
  }

  class FreeListAllocator {
    const pool: Pool
    const logPage: nat
    var retry: bool

    ghost predicate Valid()
      reads pool, pool.table
    {
      pool.Valid() && pool.log == 0
    }

    constructor (logHeapSize: nat, mem: map<nat, nat>)
      ensures Valid() && !retry && fresh(pool) && fresh(pool.table)
      ensures logPage == LOG_2M && pool.table.Length == logHeapSize + 1 && pool.out == {} && pool.total == iset{}
    {
      pool := new Pool(0, logHeapSize + 1, mem);
      logPage := LOG_2M;
      retry := false;
    }

    /** Take a cell of class `sc`, splitting one of the next class when the list is empty. */
    method AllocCell(sc: nat) returns (r: Option<nat>)
      requires pool.Valid()
      modifies pool`mem, pool`lists, pool.table
      ensures pool.Wired()
      ensures Allocated(pool.log, old(pool.lists), sc, r, pool.lists)
      ensures r.None? ==> pool.Valid()
      ensures r.Some? ==> sc < pool.table.Length && pool.Held(r.value, sc)
      decreases pool.table.Length - sc, 1
    {
      if sc >= pool.table.Length {
        return None;
      }
      ghost var before := pool.lists;
      r := pool.TakeHead(sc);
      if r.Some? {
        AllocatedHead(pool.log, before, sc);
      } else {
        r := AllocFromNextClass(sc, before);
      }
    }

    method AllocFromNextClass(sc: nat, ghost before: seq<seq<nat>>) returns (r: Option<nat>)
      requires pool.Valid() && sc < pool.table.Length && pool.lists == before && before[sc] == []
      modifies pool`mem, pool`lists, pool.table
      ensures pool.Wired()
      ensures Allocated(pool.log, before, sc, r, pool.lists)
      ensures r.None? ==> pool.Valid()
      ensures r.Some? ==> sc < pool.table.Length && pool.Held(r.value, sc)
      decreases pool.table.Length - sc, 0
    {
      hide Allocated, Partition, Linked;
      r := AllocCell(sc + 1);
      if r.Some? {
        AllocatedBySplit(pool.log, before, sc, r.value, pool.lists);
        pool.SplitOff(r.value, sc + 1, sc);
      } else {
        AllocatedNothing(pool.log, before, sc, pool.lists);
      }
    }

    /** Allocate by splitting; when no cell is left, refill once and try again. `grant` is what the page
        resource returns if asked. On the second try the source asserts that it did not try before. */
    method AllocCellSlow(sc: nat, grant: Option<nat>) returns (r: Outcome)
      requires Valid() && IsGrant(pool.total, grant, LogRefill(logPage, sc))
      requires retry ==> !NothingFrom(pool.lists, sc)
      modifies this`retry, pool`mem, pool`lists, pool`out, pool`total, pool.table
      ensures Valid() && retry == old(retry)
      ensures r.NoPages? <==> NothingFrom(old(pool.lists), sc) && grant.None?
      ensures r.NoClass? <==>
              && NothingFrom(old(pool.lists), sc) && grant.Some?
              && !RefillFits(grant.value, LogRefill(logPage, sc), pool.table.Length)
      ensures r.Got? ==> Cell(r.start, sc) !in old(pool.out) && pool.out == old(pool.out) + {Cell(r.start, sc)}
      ensures !r.Got? ==> pool.out == old(pool.out)
      ensures !r.NoClass? ==>
                pool.total ==
                if NothingFrom(old(pool.lists), sc) && grant.Some?
                then old(pool.total) + Span(grant.value, CoveredLength(grant.value, LogRefill(logPage, sc)))
                else old(pool.total)
      decreases !retry
    {
      hide Linked, Partition, CoveredLength, RefillFits, LogRefill;
      var cell := AllocCell(sc);
      if cell.Some? {
        AllocatedIfAny(pool.log, old(pool.lists), sc, cell, pool.lists);
        pool.out := pool.out + {Cell(cell.value, sc)};
        return Got(cell.value);
      }
      assert !retry;
      if grant.None? {
        return NoPages;
      }
      var ok := RefillFor(sc, grant.value);
      if !ok {
        return NoClass;
      }
      retry := true;
      r := AllocCellSlow(sc, None);
      retry := false;
    }

    method Alloc(layout: Layout, grant: Option<nat>) returns (r: Outcome)
      requires Valid() && !retry
      requires IsGrant(pool.total, grant, LogRefill(logPage, SizeClass(CellSize(layout))))
      modifies this`retry, pool`mem, pool`lists, pool`out, pool`total, pool.table
      ensures Valid() && !retry
      ensures var sc := SizeClass(CellSize(layout));
              && (r.NoPages? <==> sc < pool.table.Length && NothingFrom(old(pool.lists), sc) && grant.None?)
              && (r.NoClass? <==>
                    || sc >= pool.table.Length
                    || (NothingFrom(old(pool.lists), sc) && grant.Some?
                        && !RefillFits(grant.value, LogRefill(logPage, sc), pool.table.Length)))
              && (r.Got? ==> Cell(r.start, sc) !in old(pool.out) && pool.out == old(pool.out) + {Cell(r.start, sc)})
      ensures !r.Got? ==> pool.out == old(pool.out)
      ensures !r.NoClass? ==>
                var sc := SizeClass(CellSize(layout));
                pool.total ==
                if NothingFrom(old(pool.lists), sc) && grant.Some?
                then old(pool.total) + Span(grant.value, CoveredLength(grant.value, LogRefill(logPage, sc)))
                else old(pool.total)
    {
      hide Linked, RefillFits, LogRefill, CoveredLength;
      var sc := SizeClass(CellSize(layout));
      if sc >= pool.table.Length {
        return NoClass;
      }
      var cell := pool.TakeHead(sc);
      if cell.Some? {
        pool.out := pool.out + {Cell(cell.value, sc)};
        return Got(cell.value);
      }
      r := AllocCellSlow(sc, grant);
    }

    /** Free a cell; cells of 2M and more go back to the page resource, as listed in `released`. */
    method Free(start: nat, layout: Layout, releaseLargePages: bool) returns (released: seq<Cell>)
      requires Valid() && SizeClass(CellSize(layout)) < pool.table.Length
      requires Cell(start, SizeClass(CellSize(layout))) in pool.out
      modifies pool`mem, pool`lists, pool`out, pool`total, pool.table
      ensures Valid() && pool.out == old(pool.out) - {Cell(start, SizeClass(CellSize(layout)))}
      ensures var sc := SizeClass(CellSize(layout));
              var lists := old(pool.lists)[sc := [start] + old(pool.lists)[sc]];
              if releaseLargePages
              then released == Drained(lists, logPage) && LargeReleased(lists, logPage, pool.lists, released)
              else released == [] && pool.lists == lists
      ensures pool.total == old(pool.total) - CoveredBy(released)
    {
      var sc := SizeClass(CellSize(layout));
      pool.TakeBack(start, sc);
      released := [];
      if releaseLargePages {
        released := ReleaseLargePages();
      }
    }

    /** Hand every listed cell of at least a page back to the page resource, and no other. */
    method ReleaseLargePages() returns (released: seq<Cell>)
      requires Valid()
      modifies pool`lists, pool`total, pool.table
      ensures Valid()
      ensures released == Drained(old(pool.lists), logPage)
      ensures LargeReleased(old(pool.lists), logPage, pool.lists, released)
      ensures pool.total == old(pool.total) - CoveredBy(released)
    {
      hide CoveredBy, Partition, Linked, DrainTo, Drained, LargeReleased;
      released := [];
      NothingCovered();
      ghost var lists := pool.lists;
      var sc := logPage;
      DrainNothing(lists, logPage);
      while sc < pool.table.Length
        invariant Valid() && logPage <= sc && (sc <= pool.table.Length || sc == logPage)
        invariant pool.lists == DrainTo(lists, logPage, sc)
        invariant released + Drained(lists, sc) == Drained(lists, logPage)
        invariant pool.total == old(pool.total) - CoveredBy(released)
      {
        DrainStep(lists, logPage, sc);
        var cells := DrainClass(sc);
        CoveredByConcat(released, cells);
        released := released + cells;
        assert released + Drained(lists, sc + 1) == Drained(lists, logPage);
        sc := sc + 1;
      }
      DrainAll(lists, logPage, sc);
      LargeAreReleased(lists, logPage);
    }

    method DrainClass(sc: nat) returns (cells: seq<Cell>)
      requires Valid() && sc < pool.table.Length
      modifies pool`lists, pool`total, pool.table
      ensures Valid()
      ensures cells == CellsOf(old(pool.lists)[sc], sc) && pool.lists == old(pool.lists)[sc := []]
      ensures pool.total == old(pool.total) - CoveredBy(cells)
    {
      hide CoveredBy, Partition, Linked, CellsOf;
      cells := [];
      NothingCovered();
      NoCells(sc);
      ghost var list, k := pool.lists[sc], 0;
      var cell := pool.GiveAway(sc);
      while cell.Some?
        invariant Valid() && k <= |list|
        invariant cell.Some? ==> k < |list| && cell.value == list[k]
        invariant cell.None? ==> k == |list|
        invariant pool.lists == old(pool.lists)[sc := list[if cell.Some? then k + 1 else k..]]
        invariant cells == CellsOf(list[..k], sc)
        invariant pool.total == old(pool.total) - CoveredBy(cells) -
                                (if cell.Some? then Span(cell.value, Pow2(sc)) else iset{})
        decreases |list| - k
      {
        CoveredByNext(cells, Cell(cell.value, sc));
        CellsOfNext(list, k, sc);
        cells := cells + [Cell(cell.value, sc)];
        k := k + 1;
        cell := pool.GiveAway(sc);
      }
      assert list[..k] == list && list[k..] == [];
    }

    /** List the range the page resource gave for a request of class `sc`. */
    method RefillFor(sc: nat, start: nat) returns (ok: bool)
      requires Valid() && start > 0 && Span(start, Pow2(LogRefill(logPage, sc))) !! pool.total
      modifies pool`mem, pool`lists, pool`total, pool.table
      ensures Valid()
      ensures ok <==> RefillFits(start, LogRefill(logPage, sc), pool.table.Length)
      ensures ok ==>
                && !NothingFrom(pool.lists, sc)
                && pool.total == old(pool.total) + Span(start, CoveredLength(start, LogRefill(logPage, sc)))
    {
      hide Tiles, CoveredBy, CoveredLength, PushAll, TilesFit, TilesProper, NothingFrom, RefillPages, Partition, Linked,
        RefillFits;
      ghost var n := LogRefill(logPage, sc);
      var bytes := RefillPages(logPage, sc) * Pow2(logPage);
      assert bytes == Pow2(n) by {
        RefillBytes(logPage, sc);
      }
      var end := start + bytes;
      TilesFitExactly(start, n, end, pool.table.Length);
      RefillTilesProper(start, n, end);
      ok := Refill(start, end);
      if ok {
        RefillTilesCover(start, n, start);
        RefillServes(old(pool.lists), start, n - 1, end, sc);
      }
    }

    /** Tile a range from the page resource and list the tiles, up to one that has no list. */
    method Refill(start: nat, end: nat) returns (ok: bool)
      requires Valid() && 0 < start <= end && TilesProper(Tiles(start, end))
      requires Span(start, end - start) !! pool.total
      modifies pool`mem, pool`lists, pool`total, pool.table
      ensures Valid()
      ensures ok <==> TilesFit(Tiles(start, end), pool.table.Length)
      ensures ok ==>
                && pool.lists == PushAll(old(pool.lists), Tiles(start, end))
                && pool.total == old(pool.total) + CoveredBy(Tiles(start, end))
    {
      hide Linked, Partition, CoveredBy, PushAll;
      var cursor := start;
      ghost var lists, tiles, done := pool.lists, Tiles(start, end), [];
      NothingCovered();
      PushNothing(lists);
      while cursor < end
        invariant Valid() && start <= cursor <= end
        invariant done + Tiles(cursor, end) == tiles
        invariant TilesFit(done, |lists|) && pool.lists == PushAll(lists, done)
        invariant pool.total == old(pool.total) + CoveredBy(done)
        invariant CoveredBy(done) <= Span(start, cursor - start)
      {
        FirstTileIsProper(tiles, done, cursor, end);
        SpanSplits(start, cursor - start, end - cursor);
        if FloorClass(TileSize(cursor, end)) >= pool.table.Length {
          ghost var large := NextTile(tiles, done, cursor, end, cursor + TileSize(cursor, end));
          TooLarge(tiles, large, pool.table.Length);
          return false;
        }
        var next := ListTile(cursor, end);
        ghost var tile := NextTile(tiles, done, cursor, end, next);
        CoveredByNext(done, tile);
        PushAllNext(lists, done, tile);
        SpanSplits(start, cursor - start, next - cursor);
        done := done + [tile];
        cursor := next;
      }
      AllTilesDone(tiles, done, cursor, end);
      return true;
    }

    method ListTile(cursor: nat, end: nat) returns (next: nat)
      requires Valid() && 0 < cursor < end
      requires FloorClass(TileSize(cursor, end)) < pool.table.Length
      requires Aligned(cursor, FloorClass(TileSize(cursor, end)))
      requires Span(cursor, end - cursor) !! pool.total
      modifies pool`mem, pool`lists, pool`total, pool.table
      ensures Valid()
      ensures next == cursor + TileSize(cursor, end)
      ensures var sc := FloorClass(TileSize(cursor, end));
              && pool.lists == old(pool.lists)[sc := [cursor] + old(pool.lists)[sc]]
              && pool.total == old(pool.total) + Span(cursor, Pow2(sc))
              && Span(cursor, Pow2(sc)) <= Span(cursor, next - cursor)
    {
      var size := TileSize(cursor, end);
      var sc := FloorClass(size);
      AlignedIff(cursor, sc);
      assert cursor % Pow2(sc) == 0;
      SpanPrefix(cursor, Pow2(sc), size);
      SpanPrefix(cursor, size, end - cursor);
      pool.Adopt(cursor, sc);
      next := cursor + size;
    }
  }

  // ---- what draining the large classes leaves and hands back ----

  function CellsOf(list: seq<nat>, sc: nat): seq<Cell>
  {
    seq(|list|, i requires 0 <= i < |list| => Cell(list[i], sc))
  }

  /** The lists with the classes from `lo` up to `hi` emptied. */
  ghost function DrainTo(lists: seq<seq<nat>>, lo: nat, hi: nat): (r: seq<seq<nat>>)
    ensures |r| == |lists|
  {
    seq(|lists|, c requires 0 <= c < |lists| => if lo <= c < hi then [] else lists[c])
  }

  ghost function Drain(lists: seq<seq<nat>>, lo: nat): seq<seq<nat>>
  {
    DrainTo(lists, lo, |lists|)
  }

  /** The cells of the classes from `lo` up, class by class, each list in order. */
  ghost function Drained(lists: seq<seq<nat>>, lo: nat): seq<Cell>
    decreases |lists| - lo
  {
    if lo >= |lists| then [] else CellsOf(lists[lo], lo) + Drained(lists, lo + 1)
  }

  /** The lists from class `lo` up have been emptied, the others are as before, and exactly the cells of the
      emptied lists have been handed back. */
  ghost predicate LargeReleased(before: seq<seq<nat>>, lo: nat, after: seq<seq<nat>>, released: seq<Cell>)
  {
    && |after| == |before|
    && (forall c :: 0 <= c < |before| ==> after[c] == if c < lo then before[c] else [])
    && (forall p :: p in released <==> lo <= p.sc < |before| && p.start in before[p.sc])
  }

  lemma LargeAreReleased(lists: seq<seq<nat>>, lo: nat)
    ensures LargeReleased(lists, lo, Drain(lists, lo), Drained(lists, lo))
  {
    forall p
      ensures p in Drained(lists, lo) <==> lo <= p.sc < |lists| && p.start in lists[p.sc]
    {
      DrainedCell(lists, lo, p);
    }
  }

  lemma {:induction false} DrainedCell(lists: seq<seq<nat>>, lo: nat, p: Cell)
    ensures p in Drained(lists, lo) <==> lo <= p.sc < |lists| && p.start in lists[p.sc]
    decreases |lists| - lo
  {
    if lo < |lists| {
      DrainedCell(lists, lo + 1, p);
      CellOfList(lists[lo], lo, p);
    }
  }

  lemma CellOfList(list: seq<nat>, sc: nat, p: Cell)
    ensures p in CellsOf(list, sc) <==> p.sc == sc && p.start in list
  {
    if i :| 0 <= i < |list| && list[i] == p.start {
      assert CellsOf(list, sc)[i] == Cell(p.start, sc);
    }
  }

  lemma DrainNothing(lists: seq<seq<nat>>, lo: nat)
    ensures DrainTo(lists, lo, lo) == lists
  {
  }

  lemma DrainStep(lists: seq<seq<nat>>, lo: nat, sc: nat)
    requires lo <= sc < |lists|
    ensures DrainTo(lists, lo, sc)[sc] == lists[sc]
    ensures DrainTo(lists, lo, sc)[sc := []] == DrainTo(lists, lo, sc + 1)
    ensures CellsOf(lists[sc], sc) + Drained(lists, sc + 1) == Drained(lists, sc)
  {
  }

  lemma CoveredByConcat(xs: seq<Cell>, ys: seq<Cell>)
    ensures CoveredBy(xs + ys) == CoveredBy(xs) + CoveredBy(ys)
  {
    var all, xset, yset := set t | t in xs + ys, set t | t in xs, set t | t in ys;
    forall x: nat
      ensures IsCovered(0, all, x) <==> IsCovered(0, xset, x) || IsCovered(0, yset, x)
    {
    }
  }

  lemma DrainAll(lists: seq<seq<nat>>, lo: nat, sc: nat)
    requires lo <= sc && sc >= |lists| && (sc <= |lists| || sc == lo)
    ensures DrainTo(lists, lo, sc) == Drain(lists, lo) && Drained(lists, sc) == []
  {
  }

  lemma NothingCovered()
    ensures CoveredBy([]) == iset{}
  {
  }

  lemma NoCells(sc: nat)
    ensures CellsOf([], sc) == []
  {
  }

  lemma CellsOfNext(list: seq<nat>, k: nat, sc: nat)
    requires k < |list|
    ensures CellsOf(list[..k + 1], sc) == CellsOf(list[..k], sc) + [Cell(list[k], sc)]
  {
  }

  // ---- the tiles of a refill ----

  /** What a call of `AllocCellSlow` may be given by the page resource: `2^n` bytes it does not hold yet. */
  ghost predicate IsGrant(total: iset<nat>, grant: Option<nat>, n: nat)
  {
    grant.Some? ==> grant.value > 0 && Span(grant.value, Pow2(n)) !! total
  }

  /** The tiles the refill loop lists, from `cursor` on. */
  ghost function Tiles(cursor: nat, end: nat): seq<Cell>
    decreases end - cursor
  {
    if cursor >= end then [] else
      var size := TileSize(cursor, end);
      [Cell(cursor, FloorClass(size))] + Tiles(cursor + size, end)
  }

  ghost predicate TilesFit(tiles: seq<Cell>, classes: nat)
  {
    forall t :: t in tiles ==> Proper(0, t) && t.sc < classes
  }

  ghost function PushAll(lists: seq<seq<nat>>, tiles: seq<Cell>): (r: seq<seq<nat>>)
    requires TilesFit(tiles, |lists|)
    ensures |r| == |lists|
  {
    if tiles == [] then lists else
      var t := tiles[|tiles| - 1];
      var r := PushAll(lists, tiles[..|tiles| - 1]);
      r[t.sc := [t.start] + r[t.sc]]
  }

  ghost function CoveredBy(tiles: seq<Cell>): iset<nat>
  {
    Covered(0, set t | t in tiles)
  }

  /** The tiles from `cursor` on: the first, and those from the next cursor on. */
  lemma TilesSplit(cursor: nat, end: nat) returns (t: Cell, next: nat)
    requires cursor < end
    ensures t == Cell(cursor, FloorClass(TileSize(cursor, end))) && next == cursor + TileSize(cursor, end)
    ensures cursor < next <= end
    ensures Tiles(cursor, end) == [t] + Tiles(next, end)
    ensures t in Tiles(cursor, end)
  {
    t, next := Tiles(cursor, end)[0], cursor + TileSize(cursor, end);
  }

  /** When the tiles of `2^n` bytes from `start` have a class the lists have. */
  predicate RefillFits(start: nat, n: nat, classes: nat)
  {
    n < classes || (n == classes && start % Pow2(n) != 0)
  }

  /** Then all tiles are aligned and have such a class. */
  lemma {:induction false} RefillTilesFit(start: nat, n: nat, cursor: nat, classes: nat)
    requires 0 < start <= cursor <= start + Pow2(n) && RefillFits(start, n, classes)
    requires cursor <= Peak(start, n) || cursor == start + Pow2(n)
    ensures TilesFit(Tiles(cursor, start + Pow2(n)), classes)
    decreases start + Pow2(n) - cursor
  {
    hide Proper, Peak, TileSize, FloorClass;
    var end := start + Pow2(n);
    if cursor < end {
      var t, next := TilesSplit(cursor, end);
      FitStep(start, n, cursor, t, next);
      RefillTilesFit(start, n, next, classes);
    }
  }

  lemma FitStep(start: nat, n: nat, cursor: nat, t: Cell, next: nat)
    requires 0 < start <= cursor <= Peak(start, n) && cursor < start + Pow2(n)
    requires t == Cell(cursor, FloorClass(TileSize(cursor, start + Pow2(n))))
    requires next == cursor + TileSize(cursor, start + Pow2(n))
    ensures Proper(0, t) && t.sc <= n
    ensures start % Pow2(n) != 0 ==> t.sc < n
    ensures next <= Peak(start, n) || next == start + Pow2(n)
  {
    hide TileSize, FloorClass;
    TileSteps(start, n, cursor);
    RestOfRefill(start, n);
    if cursor == Peak(start, n) && t.sc >= n {
      RestIsLess(start, n, t.sc);
    }
  }

  lemma RestIsLess(start: nat, n: nat, c: nat)
    requires c >= n && Pow2(c) <= if start % Pow2(n) == 0 then Pow2(n) else start % Pow2(n)
    ensures start % Pow2(n) == 0
  {
    Pow2Monotone(n, c);
  }

  /** And only then. */
  lemma TilesFitExactly(start: nat, n: nat, end: nat, classes: nat)
    requires start > 0 && end == start + Pow2(n)
    ensures TilesFit(Tiles(start, end), classes) <==> RefillFits(start, n, classes)
  {
    hide TilesFit, Tiles, TileSize, FloorClass, Landing;
    if RefillFits(start, n, classes) {
      RefillTilesFit(start, n, start, classes);
    } else if n == classes {
      WholeTile(start, n);
      TooLarge(Tiles(start, end), Cell(start, n), classes);
    } else {
      LandingFacts(start, n - 1);
      var large := RefillTilesLarge(start, n - 1, start);
      TooLarge(Tiles(start, end), large, classes);
    }
  }

  lemma WholeTile(start: nat, n: nat)
    requires start > 0 && start % Pow2(n) == 0
    ensures Cell(start, n) in Tiles(start, start + Pow2(n))
  {
    hide Tiles, TileSize, FloorClass;
    RestOfRefill(start, n);
    TileSteps(start, n, start);
    var t, next := TilesSplit(start, start + Pow2(n));
    FloorClassAtLeast(Pow2(n), n);
    FloorClassAtMost(Pow2(n), n);
  }

  lemma TooLarge(tiles: seq<Cell>, t: Cell, classes: nat)
    requires t in tiles && t.sc >= classes
    ensures !TilesFit(tiles, classes)
  {
  }

  ghost predicate TilesProper(tiles: seq<Cell>)
  {
    forall t :: t in tiles ==> Proper(0, t)
  }

  lemma RefillTilesProper(start: nat, n: nat, end: nat)
    requires start > 0 && end == start + Pow2(n)
    ensures TilesProper(Tiles(start, end))
  {
    RefillTilesFit(start, n, start, n + 1);
  }

  /** Together they cover a prefix of the range. */
  lemma {:induction false} RefillTilesCover(start: nat, n: nat, cursor: nat)
    requires 0 < start <= cursor <= Peak(start, n)
    ensures cursor - start <= CoveredLength(start, n)
    ensures CoveredBy(Tiles(cursor, start + Pow2(n))) == Span(cursor, CoveredLength(start, n) - (cursor - start))
    decreases start + Pow2(n) - cursor
  {
    hide TileSize, FloorClass, CoveredLength, Tiles, CoveredBy;
    var end, length := start + Pow2(n), CoveredLength(start, n) - (cursor - start);
    var t, next := TilesSplit(cursor, end);
    CoverStep(start, n, cursor, t, next);
    CoveredByFirst(t, Tiles(next, end));
    if cursor < Peak(start, n) {
      RefillTilesCover(start, n, next);
      SpanSplits(cursor, next - cursor, length - (next - cursor));
    } else {
      NoTiles(next, end);
    }
  }

  lemma CoverStep(start: nat, n: nat, cursor: nat, t: Cell, next: nat)
    requires 0 < start <= cursor <= Peak(start, n) && cursor < start + Pow2(n)
    requires t == Cell(cursor, FloorClass(TileSize(cursor, start + Pow2(n))))
    requires next == cursor + TileSize(cursor, start + Pow2(n))
    ensures if cursor < Peak(start, n)
            then next <= Peak(start, n) && Pow2(t.sc) == next - cursor
            else next == start + Pow2(n) && Pow2(t.sc) == CoveredLength(start, n) - (cursor - start)
  {
    hide TileSize, FloorClass, Peak;
    TileSteps(start, n, cursor);
  }

  lemma NoTiles(cursor: nat, end: nat)
    requires cursor >= end
    ensures Tiles(cursor, end) == []
  {
  }

  lemma CoveredByFirst(t: Cell, rest: seq<Cell>)
    ensures CoveredBy([t] + rest) == Span(t.start, Pow2(t.sc)) + CoveredBy(rest)
    ensures rest == [] ==> CoveredBy([t] + rest) == Span(t.start, Pow2(t.sc))
  {
    assert (set x | x in [t] + rest) == (set x | x in rest) + {t};
    CoveredAdd(0, (set x | x in rest), t);
  }

  /** One of them is at least half the range. */
  lemma {:induction false} RefillTilesLarge(start: nat, m: nat, cursor: nat) returns (large: Cell)
    requires 0 < start <= cursor <= Landing(start, m)
    ensures large in Tiles(cursor, start + Pow2(m + 1)) && large.sc >= m
    decreases start + Pow2(m + 1) - cursor
  {
    hide TileSize, FloorClass, Tiles, Landing;
    LandingFacts(start, m);
    var end := start + Pow2(m + 1);
    var t, next := TilesSplit(cursor, end);
    if Landing(start, m) < next {
      LargeTile(start, m, cursor);
      large := t;
    } else {
      large := RefillTilesLarge(start, m, next);
    }
  }

  lemma {:induction false} PushAllLists(lists: seq<seq<nat>>, tiles: seq<Cell>, t: Cell)
    requires TilesFit(tiles, |lists|) && t in tiles
    ensures PushAll(lists, tiles)[t.sc] != []
    decreases |tiles|
  {
    var last := |tiles| - 1;
    if tiles[last] != t {
      PushAllLists(lists, tiles[..last], t);
    }
  }

  /** After a refill for class `sc` there is a cell of class `sc` or more on the lists. */
  lemma RefillServes(lists: seq<seq<nat>>, start: nat, m: nat, end: nat, sc: nat)
    requires start > 0 && sc <= m && end == start + Pow2(m + 1) && TilesFit(Tiles(start, end), |lists|)
    ensures !NothingFrom(PushAll(lists, Tiles(start, end)), sc)
  {
    LandingFacts(start, m);
    var t := RefillTilesLarge(start, m, start);
    PushAllLists(lists, Tiles(start, end), t);
  }

  lemma NextTile(tiles: seq<Cell>, done: seq<Cell>, cursor: nat, end: nat, next: nat) returns (t: Cell)
    requires cursor < end && done + Tiles(cursor, end) == tiles && next == cursor + TileSize(cursor, end)
    ensures t == Cell(cursor, FloorClass(TileSize(cursor, end))) && t in tiles
    ensures done + [t] + Tiles(next, end) == tiles
  {
    var first, after := TilesSplit(cursor, end);
    t := first;
    Reassociate(done, t, Tiles(next, end));
  }

  lemma Reassociate(done: seq<Cell>, t: Cell, rest: seq<Cell>)
    ensures done + ([t] + rest) == done + [t] + rest
    ensures t in done + ([t] + rest)
  {
    assert (done + ([t] + rest))[|done|] == t;
  }

  lemma FirstTileIsProper(tiles: seq<Cell>, done: seq<Cell>, cursor: nat, end: nat)
    requires cursor < end && done + Tiles(cursor, end) == tiles && TilesProper(tiles)
    ensures Aligned(cursor, FloorClass(TileSize(cursor, end)))
  {
    var t := NextTile(tiles, done, cursor, end, cursor + TileSize(cursor, end));
    assert Proper(0, t);
  }

  lemma AllTilesDone(tiles: seq<Cell>, done: seq<Cell>, cursor: nat, end: nat)
    requires done + Tiles(cursor, end) == tiles && cursor >= end
    ensures done == tiles
  {
    assert Tiles(cursor, end) == [];
  }

  lemma CoveredByNext(done: seq<Cell>, t: Cell)
    ensures CoveredBy(done + [t]) == CoveredBy(done) + Span(t.start, Pow2(t.sc))
  {
    assert (set x | x in done + [t]) == (set x | x in done) + {t};
    CoveredAdd(0, (set x | x in done), t);
  }

  lemma PushNothing(lists: seq<seq<nat>>)
    ensures PushAll(lists, []) == lists
  {
  }

  lemma PushAllNext(lists: seq<seq<nat>>, done: seq<Cell>, t: Cell)
    requires TilesFit(done, |lists|) && Proper(0, t) && t.sc < |lists|
    ensures TilesFit(done + [t], |lists|)
    ensures var r := PushAll(lists, done);
            PushAll(lists, done + [t]) == r[t.sc := [t.start] + r[t.sc]]
  {
    assert (done + [t])[..|done|] == done;
  }

  lemma SpanPrefix(start: nat, m: nat, n: nat)
    requires m <= n
    ensures Span(start, m) <= Span(start, n)
  {
    SpanSplits(start, m, n - m);
  }
}
