/**
 The kernel heap: the buddy allocator hands out the virtual pages that refill the heap's free lists.
 */
module KernelHeap {
  import opened Options
  import opened Bits
  import B = BitMapPageAllocator
  import H = BuddyHistories
  import F = FreeListAllocator
  import S = SizeClassLists

  const LOG_4K: nat := 12

  /** The address of a unit of the heap. */
  function AddressOf(base: nat, unit: nat): nat
  {
    base + unit * Pow2(LOG_4K)
  }

  /** The bytes of a set of units. */
  ghost function Bytes(base: nat, units: set<nat>): iset<nat>
  {
    iset x: nat | InUnits(base, units, x)
  }

  predicate InUnits(base: nat, units: set<nat>, x: nat)
  {
    base <= x && (x - base) / 4096 in units
  }

  /** A run of units is a run of bytes from the address of the first. */
  lemma BytesOfRange(base: nat, unit: nat, n: nat)
    ensures Bytes(base, B.Range(unit, n)) == S.Span(AddressOf(base, unit), n * Pow2(LOG_4K))
  {
    Pow2Of12();
    forall x: nat
      ensures x in Bytes(base, B.Range(unit, n)) <==> x in S.Span(AddressOf(base, unit), n * Pow2(LOG_4K))
    {
      if base <= x {
        UnitsOfByte(x - base, unit, n);
        assert B.Within(unit, n, (x - base) / 4096) <==> unit <= (x - base) / 4096 < unit + n;
      }
    }
  }

  lemma Pow2Of12()
    ensures Pow2(LOG_4K) == 4096
  {
    assert Pow2(6) == 64;
    Pow2Add(6, 6);
  }

  lemma UnitsOfByte(y: nat, unit: nat, n: nat)
    ensures unit <= y / 4096 < unit + n <==> unit * 4096 <= y < unit * 4096 + n * 4096
  {
  }

  /** The units that leave the free ones are those of the run handed out, and they are units of the heap. */
  lemma UnitsTaken(logUnits: nat, before: seq<bv64>, n: nat, unit: nat, after: seq<bv64>)
    requires B.AcquireStep(logUnits, before, n, Some(unit), after)
    ensures B.FreeUnits(logUnits, before) - B.FreeUnits(logUnits, after) == B.Range(unit, n)
    ensures B.FreeUnits(logUnits, after) <= B.FreeUnits(logUnits, before)
    ensures unit + n <= Pow2(logUnits)
  {
    hide B.BestFit, B.WellFormed, Aligned, B.FreeCells;
    assert B.Range(unit, n) <= B.Range(unit, Pow2(SizeClass(n)));
  }

  lemma BytesTaken(logUnits: nat, before: seq<bv64>, n: nat, unit: nat, after: seq<bv64>, base: nat, bytes: nat)
    requires B.AcquireStep(logUnits, before, n, Some(unit), after) && bytes == n * Pow2(LOG_4K)
    ensures S.Span(base + unit * Pow2(LOG_4K), bytes) ==
            Bytes(base, B.FreeUnits(logUnits, before) - B.FreeUnits(logUnits, after))
    ensures S.Span(base + unit * Pow2(LOG_4K), bytes) <= S.Span(base, Pow2(logUnits + LOG_4K))
  {
    hide B.AcquireStep, B.FreeUnits, B.Range, Bytes;
    UnitsTaken(logUnits, before, n, unit, after);
    BytesOfRange(base, unit, n);
    Pow2Add(logUnits, LOG_4K);
    Pow2Of12();
  }

  /** `BitMapPageAllocator::acquire` of pages of `2^logPage` bytes: the bytes returned are exactly those of the
      units that leave the free ones, lie in the heap, and start at a multiple of their length rounded up to a
      power of two. */
  method AcquirePages(allocator: B.BitMapPageAllocator, base: nat, logPage: nat, pages: nat)
      returns (r: Option<nat>, ghost unit: Option<nat>)
    requires allocator.Valid() && LOG_4K <= logPage
    modifies allocator.table
    ensures allocator.Valid()
    ensures var units := pages * Pow2(logPage - LOG_4K);
            && B.AcquireStep(allocator.logUnits, old(allocator.table[..]), units, unit, allocator.table[..])
            && r == (if unit.None? then None else Some(AddressOf(base, unit.value)))
            && (r.Some? && Aligned(base, allocator.logUnits + LOG_4K) ==>
                  Aligned(r.value, SizeClass(units) + LOG_4K))
    ensures r.Some? ==>
              && S.Span(r.value, pages * Pow2(logPage)) == Bytes(base, old(allocator.Free()) - allocator.Free())
              && S.Span(r.value, pages * Pow2(logPage)) <= S.Span(base, Pow2(allocator.logUnits + LOG_4K))
    ensures r.None? ==> allocator.Free() == old(allocator.Free())
  {
    hide Aligned, B.Acquired, Bytes, S.Span, B.FreeUnits;
    var units := pages * Pow2(logPage - LOG_4K);
    var u := allocator.AcquireUnits(units);
    unit := u;
    if u.None? {
      return None, unit;
    }
    r := Some(base + u.value * Pow2(LOG_4K));
    BytesOfPages(pages, logPage);
    BytesTaken(allocator.logUnits, old(allocator.table[..]), units, u.value, allocator.table[..], base,
               pages * Pow2(logPage));
    if Aligned(base, allocator.logUnits + LOG_4K) {
      StartIsAligned(allocator.logUnits, old(allocator.table[..]), units, u.value, allocator.table[..], base, LOG_4K);
    }
  }

  lemma BytesOfPages(pages: nat, logPage: nat)
    requires LOG_4K <= logPage
    ensures pages * Pow2(logPage) == pages * Pow2(logPage - LOG_4K) * Pow2(LOG_4K)
  {
    Pow2Add(logPage - LOG_4K, LOG_4K);
    MulAssoc(pages, Pow2(logPage - LOG_4K), Pow2(LOG_4K));
  }

  /** `BitMapPageAllocator::release`: the pages, which start a whole number of units above the base, become
      free. */
  method ReleasePages(allocator: B.BitMapPageAllocator, base: nat, logPage: nat, start: nat, pages: nat)
    requires allocator.Valid() && LOG_4K <= logPage && base <= start && Aligned(start - base, LOG_4K)
    requires S.Span(start, pages * Pow2(logPage)) <= S.Span(base, Pow2(allocator.logUnits + LOG_4K))
    requires S.Span(start, pages * Pow2(logPage)) !! Bytes(base, allocator.Free())
    modifies allocator.table
    ensures allocator.Valid()
    ensures Bytes(base, allocator.Free()) == Bytes(base, old(allocator.Free())) + S.Span(start, pages * Pow2(logPage))
  {
    hide Aligned, Bytes, S.Span, B.FreeUnits, B.Range, B.WellFormed;
    var unit := Shr(start - base, LOG_4K);
    var units := pages * Pow2(logPage - LOG_4K);
    BytesOfPages(pages, logPage);
    AlignedShr(start - base, LOG_4K);
    BytesOfRange(base, unit, units);
    UnitsGivenBack(allocator.logUnits, allocator.table[..], base, unit, units);
    allocator.ReleaseUnits(unit, units);
    BytesAdd(base, old(allocator.Free()), B.Range(unit, units));
  }

  lemma BytesAdd(base: nat, x: set<nat>, y: set<nat>)
    ensures Bytes(base, x + y) == Bytes(base, x) + Bytes(base, y)
  {
  }

  lemma UnitsGivenBack(logUnits: nat, table: seq<bv64>, base: nat, unit: nat, n: nat)
    requires Bytes(base, B.Range(unit, n)) <= S.Span(base, Pow2(logUnits + LOG_4K))
    requires Bytes(base, B.Range(unit, n)) !! Bytes(base, B.FreeUnits(logUnits, table))
    ensures B.Outstanding(logUnits, table, unit, n)
  {
    hide B.FreeUnits;
    Pow2Add(logUnits, LOG_4K);
    Pow2Of12();
    forall u | u in B.Range(unit, n)
      ensures u < Pow2(logUnits) && u !in B.FreeUnits(logUnits, table)
    {
      var x := base + u * 4096;
      assert x in Bytes(base, B.Range(unit, n));
      assert x !in Bytes(base, B.FreeUnits(logUnits, table));
      assert x in S.Span(base, Pow2(logUnits + LOG_4K));
    }
    if n > 0 {
      assert B.Within(unit, n, unit + n - 1);
      assert unit + n - 1 in B.Range(unit, n);
    }
  }

  lemma StartIsAligned(logUnits: nat, before: seq<bv64>, units: nat, unit: nat, after: seq<bv64>, base: nat, log: nat)
    requires B.AcquireStep(logUnits, before, units, Some(unit), after) && Aligned(base, logUnits + log)
    ensures SizeClass(units) <= logUnits && Aligned(base + unit * Pow2(log), SizeClass(units) + log)
  {
    hide Aligned, B.BestFit, B.WellFormed, B.Range;
    var k := SizeClass(units);
    B.ClassFits(logUnits, k, unit);
    AlignedScaled(unit, k, log);
    AlignedLess(base, k + log, logUnits + log);
    AlignedSum(base, unit * Pow2(log), k + log);
  }

  lemma AlignedScaled(x: nat, k: nat, log: nat)
    requires Aligned(x, k)
    ensures Aligned(x * Pow2(log), k + log)
  {
    var q: nat :| x == Multiple(q, k);
    Pow2Add(k, log);
    MulAssoc(q, Pow2(k), Pow2(log));
    AlignedMultiple(q, k + log);
  }

  /** In every run, the ranges of two acquires with no release between them have no byte in common. */
  lemma RangesApart(L: nat, tables: seq<seq<bv64>>, events: seq<H.Event>, base: nat, i: nat, j: nat)
    requires H.History(L, tables, events) && i < j < |events| && events[i].Acquire? && events[j].Acquire?
    requires forall k :: i < k < j ==> !events[k].Release?
    ensures S.Span(AddressOf(base, events[i].start), events[i].n * Pow2(LOG_4K)) !!
            S.Span(AddressOf(base, events[j].start), events[j].n * Pow2(LOG_4K))
  {
    hide B.AcquireStep, B.FreeUnits, B.Range, S.Span, Bytes;
    UnitsTaken(L, tables[i], events[i].n, events[i].start, tables[i + 1]);
    UnitsTaken(L, tables[j], events[j].n, events[j].start, tables[j + 1]);
    FreeShrinks(L, tables, events, i + 1, j);
    BytesOfRange(base, events[i].start, events[i].n);
    BytesOfRange(base, events[j].start, events[j].n);
    BytesApart(base, B.Range(events[i].start, events[i].n), B.Range(events[j].start, events[j].n));
  }

  lemma BytesApart(base: nat, x: set<nat>, y: set<nat>)
    requires x !! y
    ensures Bytes(base, x) !! Bytes(base, y)
  {
  }

  lemma {:induction false} FreeShrinks(L: nat, tables: seq<seq<bv64>>, events: seq<H.Event>, i: nat, j: nat)
    requires H.History(L, tables, events) && i <= j < |tables|
    requires forall k :: i <= k < j ==> !events[k].Release?
    ensures B.FreeUnits(L, tables[j]) <= B.FreeUnits(L, tables[i])
  {
    hide B.AcquireStep, B.FreeUnits;
    if i < j {
      FreeShrinks(L, tables, events, i, j - 1);
      FreeShrinksByStep(L, tables[j - 1], events[j - 1], tables[j]);
    }
  }

  lemma FreeShrinksByStep(L: nat, before: seq<bv64>, e: H.Event, after: seq<bv64>)
    requires H.Step(L, before, e, after) && !e.Release?
    ensures B.FreeUnits(L, after) <= B.FreeUnits(L, before)
  {
    match e
    case Acquire(n, start) => UnitsTaken(L, before, n, start, after);
    case Exhausted(n) =>
  }

  /** A heap aligned to its own size refills its lists without a gap: the range the buddy allocator returns for
      any request is covered by the tiles. */
  lemma RefillIsExact(logUnits: nat, before: seq<bv64>, after: seq<bv64>, base: nat, logPage: nat, sc: nat, unit: nat)
    requires LOG_4K <= logPage && base > 0 && Aligned(base, logUnits + LOG_4K)
    requires B.AcquireStep(logUnits, before, F.RefillPages(logPage, sc) * Pow2(logPage - LOG_4K), Some(unit), after)
    ensures var start, n := AddressOf(base, unit), F.LogRefill(logPage, sc);
            F.CoveredBy(F.Tiles(start, start + Pow2(n))) == S.Span(start, Pow2(n))
  {
    hide Aligned, B.AcquireStep, F.CoveredBy, F.Tiles, S.Span, F.RefillPages;
    var start, n := AddressOf(base, unit), F.LogRefill(logPage, sc);
    RefillUnits(logPage, sc, n);
    SizeClassOfPow2(n - LOG_4K);
    StartIsAligned(logUnits, before, Pow2(n - LOG_4K), unit, after, base, LOG_4K);
    AlignedIff(start, n);
    F.RefillIsExact(start, n);
  }

  lemma RefillUnits(logPage: nat, sc: nat, n: nat)
    requires LOG_4K <= logPage && n == F.LogRefill(logPage, sc)
    ensures F.RefillPages(logPage, sc) * Pow2(logPage - LOG_4K) == Pow2(n - LOG_4K)
  {
    hide F.RefillPages;
    F.RefillBytes(logPage, sc);
    Pow2Add(logPage - LOG_4K, LOG_4K);
    Pow2Add(n - LOG_4K, LOG_4K);
    CancelFactor(F.RefillPages(logPage, sc), Pow2(logPage - LOG_4K), Pow2(n - LOG_4K), Pow2(LOG_4K));
  }

  lemma CancelFactor(a: nat, b: nat, c: nat, p: nat)
    requires p > 0 && a * (b * p) == c * p
    ensures a * b == c
  {
    MulAssoc(a, b, p);
    if a * b < c {
      MulOrder(a * b, c, p);
    } else if c < a * b {
      MulOrder(c, a * b, p);
    }
  }

  /** The kernel's heap, the upper 256G of its 512G, is aligned to its own size. */
  lemma KernelHeapIsAligned()
    ensures Pow2(38) == 0x40_0000_0000 && Aligned(0xff80_0000_0000 - 0x40_0000_0000, 38)
  {
    assert Pow2(8) == 0x100;
    Pow2Add(8, 8);
    F.Pow2Of22();
    Pow2Add(22, 16);
    AlignedMultiple(0x3fd, 38);
  }
}
