/**
 The physical page resource: size-class lists over physical memory, class `c` holding runs of `2^c` 4K
 frames. Besides the lists the model keeps, as ghost state, the cells handed out and the addresses the
 resource was given.
 */
module PhysicalPageResource {
  import opened Options
  import opened Bits
  import opened SizeClassLists

  const LOG_4K: nat := 12
  const LOG_MAX_ADDRESS_SPACE_SIZE: nat := 48
  const NUM_SIZE_CLASS: nat := LOG_MAX_ADDRESS_SPACE_SIZE - LOG_4K + 1

  datatype PageSize = Size4K | Size2M | Size1G {
    function LogBytes(): nat
    {
      match this
      case Size4K => 12
      case Size2M => 21
      case Size1G => 30
    }
  }

  datatype FrameRange = FrameRange(start: nat, end: nat) {
    ghost function Span(): iset<nat>
    {
      iset x: nat | InRange(x)
    }

    predicate InRange(x: nat)
    {
      start <= x < end
    }
  }

  /** The addresses of the first `n` ranges. */
  ghost function Union(ranges: seq<FrameRange>, n: nat): iset<nat>
    requires n <= |ranges|
  {
    iset x: nat | InUnion(ranges, n, x)
  }

  ghost predicate InUnion(ranges: seq<FrameRange>, n: nat, x: nat)
    requires n <= |ranges|
  {
    exists i :: 0 <= i < n && ranges[i].InRange(x)
  }

  class PhysicalPageResource {
    const pool: Pool

    ghost predicate Valid()
      reads pool, pool.table
    {
      pool.Valid() && pool.log <= WORD_BITS
    }

    /** The resource starts empty, with the 4K frame as its smallest cell. */
    constructor (mem: map<nat, nat>)
      ensures pool.log == LOG_4K && pool.table.Length == NUM_SIZE_CLASS
      ensures Valid() && fresh(pool) && fresh(pool.table)
      ensures pool.out == {} && pool.total == iset{} && pool.Free() == {}
    {
      pool := new Pool(LOG_4K, NUM_SIZE_CLASS, mem);
    }

    /** Split the cell `unit` of class `k` down to class `sc`, listing the upper halves. */
    method SplitDown(unit: nat, sc: nat, k: nat)
      requires pool.Wired() && sc <= k < pool.table.Length
      requires pool.Held(unit, k)
      modifies pool`mem, pool`lists, pool.table
      ensures pool.Wired()
      ensures pool.lists == SplitLists(pool.log, old(pool.lists), unit, sc, k)
      ensures pool.Held(unit, sc)
    {
      hide Linked, Partition, Separated, SplitLists;
      ghost var lists := pool.lists;
      SplitListsNone(pool.log, lists, unit, k);
      var parentClass := k;
      while parentClass > sc
        invariant sc <= parentClass <= k
        invariant pool.Wired()
        invariant pool.lists == SplitLists(pool.log, lists, unit, parentClass, k)
        invariant pool.Held(unit, parentClass)
      {
        var childClass := parentClass - 1;
        SplitListsStep(pool.log, lists, unit, childClass, k);
        pool.SplitOff(unit, parentClass, childClass);
        parentClass := childClass;
      }
    }

    /** Take the head of the first non-empty list from class `sc` up, and split it down. */
    method AllocateCellSlow(sc: nat) returns (r: Option<nat>)
      requires Valid() && sc < pool.table.Length
      modifies pool`mem, pool`lists, pool.table
      ensures pool.Wired()
      ensures Allocated(pool.log, old(pool.lists), sc, r, pool.lists)
      ensures r.None? ==> Valid()
      ensures r.Some? ==> pool.Held(r.value, sc)
    {
      for c := sc to pool.table.Length
        invariant Valid() && pool.lists == old(pool.lists)
        invariant forall d :: sc <= d < c ==> pool.lists[d] == []
      {
        r := pool.TakeHead(c);
        if r.Some? {
          SplitDown(r.value, sc, c);
          assert AllocatedFrom(pool.log, old(pool.lists), sc, r.value, pool.lists, c);
          return;
        }
      }
      return None;
    }

    method AllocateCell(sc: nat) returns (r: Option<nat>)
      requires Valid() && sc < pool.table.Length
      modifies pool`mem, pool`lists, pool`out, pool.table
      ensures Valid()
      ensures Allocated(pool.log, old(pool.lists), sc, r, pool.lists)
      ensures r.None? <==> NothingFrom(old(pool.lists), sc)
      ensures r.None? ==> pool.out == old(pool.out)
      ensures r.Some? ==> Cell(r.value, sc) !in old(pool.out) && pool.out == old(pool.out) + {Cell(r.value, sc)}
    {
      hide Linked, Partition, Allocated, NothingFrom;
      r := pool.TakeHead(sc);
      if r.Some? {
        AllocatedHead(pool.log, old(pool.lists), sc);
      } else {
        r := AllocateCellSlow(sc);
      }
      AllocatedIfAny(pool.log, old(pool.lists), sc, r, pool.lists);
      if r.Some? {
        pool.out := pool.out + {Cell(r.value, sc)};
      }
    }

    /** Tile a range of frames with the largest aligned cells that fit, and list them: a request that could be
        served before still can, and so can one for any aligned block the range contains. From address zero, the
        first cell is not gained and the cells of its class listed so far are lost. */
    method ReleaseContiguous(start: nat, size: nat)
      requires Valid()
      requires IsRange(pool.log, pool.table.Length, start, size) && Span(start, size) !! pool.total
      modifies pool`mem, pool`lists, pool`total, pool.table
      ensures Valid()
      ensures pool.total == old(pool.total) + Span(start, size) <==> start > 0 || size == 0
      ensures start > 0 ==> old(pool.Free()) <= pool.Free()
      ensures start > 0 || size == 0 ==> ServesBlocks(pool.log, old(pool.lists), pool.lists, start, size)
      ensures start == 0 && size > 0 ==>
                var sc := TileSizeClass(pool.log, pool.table.Length, start, size);
                pool.total == old(pool.total) - Covered(pool.log, CellsIn(old(pool.lists), sc)) +
                              Span(Size(pool.log, sc), size - Size(pool.log, sc))
    {
      hide Linked, Partition, IsRange, Covered, CellsIn, TileSizeClass, ServesBlocks;
      ServesStart(pool.log, pool.lists, start, size);
      var from, left := start, size;
      var limit := start + size;
      ghost var sc := if size > 0 then TileSizeClass(pool.log, pool.table.Length, start, size) else 0;
      ghost var bytes := Size(pool.log, sc);
      while from < limit
        invariant start <= from <= limit && left == limit - from
        invariant IsRange(pool.log, pool.table.Length, from, left)
        invariant Span(from, left) !! pool.total
        invariant Valid()
        invariant from == start ==> pool.lists == old(pool.lists) && pool.total == old(pool.total)
        invariant from > start > 0 ==> pool.total == old(pool.total) + Span(start, from - start)
        invariant from > start == 0 ==>
                    && from >= bytes
                    && pool.total == old(pool.total) - Covered(pool.log, CellsIn(old(pool.lists), sc)) +
                                     Span(bytes, from - bytes)
        invariant start > 0 ==> old(pool.Free()) <= pool.Free()
        invariant start > 0 ==> ServesSoFar(pool.log, old(pool.lists), pool.lists, start, size, from, left)
        decreases left
      {
        ghost var lists := pool.lists;
        var end := ReleaseTile(from, left);
        SpanSplits(from, end - from, limit - end);
        SpanSplits(start, from - start, end - from);
        if start == 0 && from > start {
          SpanSplits(bytes, from - bytes, end - from);
        }
        if start > 0 {
          ServesNext(pool.log, old(pool.lists), lists, start, size, from, left);
        }
        from := end;
        left := limit - end;
      }
      pool.ZeroIsNotHeld();
      SpanSplits(start, size, 0);
      if start > 0 || size == 0 {
        ServesAll(pool.log, old(pool.lists), pool.lists, start, size, from, left);
      }
    }

    /** One turn of the tiling loop. The two asserted conditions are those under which the source hangs. */
    method ReleaseTile(start: nat, size: nat) returns (end: nat)
      requires Valid() && size > 0
      requires IsRange(pool.log, pool.table.Length, start, size) && Span(start, size) !! pool.total
      modifies pool`mem, pool`lists, pool`total, pool.table
      ensures Valid()
      ensures start < end <= start + size && IsRange(pool.log, pool.table.Length, end, start + size - end)
      ensures var sc := TileSizeClass(pool.log, pool.table.Length, start, size);
              && end == start + Size(pool.log, sc)
              && pool.total == if start > 0 then old(pool.total) + Span(start, end - start)
                               else old(pool.total) - Covered(pool.log, CellsIn(old(pool.lists), sc))
      ensures start > 0 ==>
                var sc := TileSizeClass(pool.log, pool.table.Length, start, size);
                pool.lists == old(pool.lists)[sc := [start] + old(pool.lists)[sc]] && old(pool.Free()) <= pool.Free()
    {
      hide Linked, Partition, Covered, CellsIn;
      var sc := TileSizeClass(pool.log, pool.table.Length, start, size);
      var bytes := Size(pool.log, sc);
      end := start + bytes;
      assert !(start % bytes != 0);
      assert !(end > start + size);
      SpanSplits(start, bytes, size - bytes);
      pool.Adopt(start, sc);
    }

    /** Hand the available physical memory to the resource, range by range. All of it is gained exactly when no
        range starts at address zero. */
    method Init(frames: seq<FrameRange>)
      requires Valid() && pool.total == iset{}
      requires forall r :: r in frames ==> r.start <= r.end && IsRange(pool.log, pool.table.Length, r.start, r.end - r.start)
      requires forall i, j :: 0 <= i < j < |frames| ==> frames[i].Span() !! frames[j].Span()
      modifies pool`mem, pool`lists, pool`total, pool.table
      ensures Valid() && pool.total <= Union(frames, |frames|)
      ensures pool.total == Union(frames, |frames|) <==> forall r :: r in frames && r.start == 0 ==> r.end == 0
      ensures (forall r :: r in frames && r.start == 0 ==> r.end == 0) ==>
                ServesRanges(pool.log, pool.lists, frames, |frames|)
    {
      hide Linked, Partition, IsRange, Covered, ServesBlocks, ServesRanges;
      NoRanges(pool.log, pool.lists, frames);
      for i := 0 to |frames|
        invariant Valid() && pool.total <= Union(frames, i)
        invariant OffZero(frames, i) ==> pool.total == Union(frames, i) && ServesRanges(pool.log, pool.lists, frames, i)
      {
        ghost var lists := pool.lists;
        var range := frames[i];
        forall x | x in range.Span()
          ensures x !in Union(frames, i)
        {
        }
        assert range.Span() == Span(range.start, range.end - range.start);
        assert Union(frames, i + 1) == Union(frames, i) + range.Span();
        ReleaseContiguous(range.start, range.end - range.start);
        if OffZero(frames, i + 1) {
          ServesRangesNext(pool.log, lists, pool.lists, frames, i);
        }
      }
      pool.ZeroIsNotHeld();
      AllOffZero(frames);
    }

    method Acquire(S: PageSize) returns (r: Option<nat>)
      requires Valid() && pool.log <= S.LogBytes() < pool.log + pool.table.Length
      modifies pool`mem, pool`lists, pool`out, pool.table
      ensures Valid() && pool.total == old(pool.total)
      ensures Allocated(pool.log, old(pool.lists), S.LogBytes() - pool.log, r, pool.lists)
      ensures r.None? <==> NothingFrom(old(pool.lists), S.LogBytes() - pool.log)
      ensures r.None? ==> pool.out == old(pool.out)
      ensures r.Some? ==>
                && Cell(r.value, S.LogBytes() - pool.log) !in old(pool.out)
                && pool.out == old(pool.out) + {Cell(r.value, S.LogBytes() - pool.log)}
                && Aligned(r.value, S.LogBytes())
    {
      hide Linked, Partition, Allocated, NothingFrom, Aligned, SizeClass;
      var size := Pow2(S.LogBytes());
      SizeClassOfPow2(S.LogBytes());
      r := AllocateCell(SizeClass(size) - pool.log);
      if r.Some? {
        OutIsAligned(pool.log, pool.Free(), pool.out, pool.total, Cell(r.value, S.LogBytes() - pool.log));
      }
    }

    method Release(S: PageSize, frame: nat)
      requires Valid() && pool.log <= S.LogBytes() < pool.log + pool.table.Length
      requires Cell(frame, S.LogBytes() - pool.log) in pool.out
      modifies pool`mem, pool`lists, pool`out, pool.table
      ensures Valid() && pool.total == old(pool.total)
      ensures pool.out == old(pool.out) - {Cell(frame, S.LogBytes() - pool.log)}
      ensures Cell(frame, S.LogBytes() - pool.log) in pool.Free()
    {
      var size := Pow2(S.LogBytes());
      SizeClassOfPow2(S.LogBytes());
      pool.TakeBack(frame, SizeClass(size) - pool.log);
    }
  }

  /** No range among the first `n` starts at address zero, unless it is empty. */
  ghost predicate OffZero(frames: seq<FrameRange>, n: nat)
    requires n <= |frames|
  {
    forall i :: 0 <= i < n && frames[i].start == 0 ==> frames[i].end == 0
  }

  lemma AllOffZero(frames: seq<FrameRange>)
    ensures OffZero(frames, |frames|) <==> forall r :: r in frames && r.start == 0 ==> r.end == 0
    ensures !OffZero(frames, |frames|) ==> 0 in Union(frames, |frames|)
  {
    if i :| 0 <= i < |frames| && frames[i].start == 0 && frames[i].end != 0 {
      assert frames[i] in frames;
      assert frames[i].InRange(0);
    }
  }

  /** A range of frames below the largest cell size. */
  ghost predicate IsRange(log: nat, classes: nat, start: nat, size: nat)
  {
    Aligned(start, log) && Aligned(size, log) && start + size < Pow2(log + classes)
  }

  /** The class the tiling loop picks: in range, aligning the start, fitting the rest. */
  function TileSizeClass(log: nat, classes: nat, start: nat, size: nat): (sc: nat)
    requires IsRange(log, classes, start, size) && size > 0 && log <= WORD_BITS
    ensures sc < classes && Aligned(start, sc + log)
    ensures Size(log, sc) <= size && start % Size(log, sc) == 0
    ensures IsRange(log, classes, start + Size(log, sc), size - Size(log, sc))
    ensures forall c: nat :: sc < c < classes && (start > 0 || c + log <= WORD_BITS) ==>
              !(Aligned(start, c + log) && Size(log, c) <= size)
  {
    TileFacts(log, classes, start, size);
    var currClass := SizeClass(size) - log;
    var prevClass := if size == Size(log, currClass) then currClass else currClass - 1;
    var align := TrailingZeros(start) - log;
    if prevClass <= align then prevClass else align
  }

  // ---- the blocks of a range can be had ----

  /** The range contains an aligned block of class `c`. */
  ghost predicate HasBlock(log: nat, start: nat, size: nat, c: nat)
  {
    exists b: nat :: IsBlockIn(log, start, size, c, b)
  }

  ghost predicate IsBlockIn(log: nat, start: nat, size: nat, c: nat, b: nat)
  {
    start <= b && b + Size(log, c) <= start + size && Aligned(b, c + log)
  }

  /** After a range has been listed, a request of class `c` can be served if it could be before or if the range
      contains an aligned block of that class. */
  ghost predicate ServesBlocks(log: nat, before: seq<seq<nat>>, after: seq<seq<nat>>, start: nat, size: nat)
  {
    forall c: nat :: c < |after| && (!NothingFrom(before, c) || HasBlock(log, start, size, c)) ==> !NothingFrom(after, c)
  }

  /** The same with a part of the range, from `from` on, still to be listed. */
  ghost predicate ServesSoFar(log: nat, before: seq<seq<nat>>, now: seq<seq<nat>>, start: nat, size: nat,
                              from: nat, left: nat)
  {
    forall c: nat :: c < |now| && (!NothingFrom(before, c) || HasBlock(log, start, size, c)) ==>
      !NothingFrom(now, c) || HasBlock(log, from, left, c)
  }

  /** Every request for an aligned block of one of the first `n` ranges can be served. */
  ghost predicate ServesRanges(log: nat, lists: seq<seq<nat>>, frames: seq<FrameRange>, n: nat)
    requires n <= |frames| && forall r :: r in frames ==> r.start <= r.end
  {
    forall i, c: nat :: 0 <= i < n && c < |lists| && HasBlock(log, frames[i].start, frames[i].end - frames[i].start, c) ==>
      !NothingFrom(lists, c)
  }

  lemma NoRanges(log: nat, lists: seq<seq<nat>>, frames: seq<FrameRange>)
    requires forall r :: r in frames ==> r.start <= r.end
    ensures ServesRanges(log, lists, frames, 0)
  {
  }

  lemma ServesRangesNext(log: nat, before: seq<seq<nat>>, after: seq<seq<nat>>, frames: seq<FrameRange>, n: nat)
    requires n < |frames| && |before| == |after| && forall r :: r in frames ==> r.start <= r.end
    requires ServesRanges(log, before, frames, n)
    requires ServesBlocks(log, before, after, frames[n].start, frames[n].end - frames[n].start)
    ensures ServesRanges(log, after, frames, n + 1)
  {
    hide NothingFrom, HasBlock;
  }

  lemma ServesStart(log: nat, lists: seq<seq<nat>>, start: nat, size: nat)
    ensures ServesSoFar(log, lists, lists, start, size, start, size)
  {
  }

  lemma ServesAll(log: nat, before: seq<seq<nat>>, now: seq<seq<nat>>, start: nat, size: nat, from: nat, left: nat)
    requires left == 0 && ServesSoFar(log, before, now, start, size, from, left)
    ensures ServesBlocks(log, before, now, start, size)
  {
    hide NothingFrom, Aligned;
    assert forall c: nat :: !HasBlock(log, from, left, c);
  }

  /** A tile takes the block of class `c` that comes next, in a cell of that class or a larger one, or ends
      before it. */
  lemma ServesNext(log: nat, before: seq<seq<nat>>, now: seq<seq<nat>>, start: nat, size: nat, from: nat, left: nat)
    requires from > 0 && left > 0 && log <= WORD_BITS && IsRange(log, |now|, from, left)
    requires ServesSoFar(log, before, now, start, size, from, left)
    ensures var sc := TileSizeClass(log, |now|, from, left);
            ServesSoFar(log, before, now[sc := [from] + now[sc]], start, size,
                        from + Size(log, sc), left - Size(log, sc))
  {
    hide IsRange, TileSizeClass, Aligned;
    var sc := TileSizeClass(log, |now|, from, left);
    var now' := now[sc := [from] + now[sc]];
    forall c: nat | c < |now| && HasBlock(log, from, left, c)
      ensures c <= sc || HasBlock(log, from + Size(log, sc), left - Size(log, sc), c)
    {
      var b: nat :| IsBlockIn(log, from, left, c, b);
      if c > sc {
        BlockIsAhead(log, from, left, c, b, sc);
      }
    }
    forall c: nat | c < |now|
      ensures c <= sc || !NothingFrom(now, c) ==> !NothingFrom(now', c)
    {
      assert now'[sc] != [];
      if d :| c <= d < |now| && now[d] != [] {
        assert now'[d] != [];
      }
    }
  }

  lemma BlockIsAhead(log: nat, from: nat, left: nat, c: nat, b: nat, sc: nat)
    requires IsBlockIn(log, from, left, c, b) && sc < c && Aligned(from, sc + log) && Size(log, sc) <= left
    requires !(Aligned(from, c + log) && Size(log, c) <= left)
    ensures IsBlockIn(log, from + Size(log, sc), left - Size(log, sc), c, b)
  {
    AlignedLess(b, sc + log, c + log);
    AlignedDifference(b, from, sc + log);
  }

  lemma TileFacts(log: nat, classes: nat, start: nat, size: nat)
    requires IsRange(log, classes, start, size) && size > 0 && log <= WORD_BITS
    ensures log <= FloorClass(size) <= SizeClass(size) && log <= TrailingZeros(start)
    ensures var c := TileClass(start, size) - log;
            && 0 <= c < classes
            && Aligned(start, c + log) && start % Size(log, c) == 0
            && IsRange(log, classes, start + Size(log, c), size - Size(log, c))
    ensures forall c: nat :: TileClass(start, size) - log < c && (start > 0 || c + log <= WORD_BITS) ==>
              !(Aligned(start, c + log) && Size(log, c) <= size)
  {
    hide Aligned, TileClass;
    TileBounds(start, size, log, log + classes);
    AlignedIff(start, TileClass(start, size));
    forall c: nat | Aligned(start, c + log) && Size(log, c) <= size && (start > 0 || c + log <= WORD_BITS)
      ensures c <= TileClass(start, size) - log
    {
      TileClassIsLargest(start, size, c + log);
    }
  }
}
