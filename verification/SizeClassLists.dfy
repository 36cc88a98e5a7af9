/**
 Free lists threaded through the free memory itself: the first word of a free cell holds the address of
 the next free cell of its class, and zero ends a list. Both the physical page resource and the heap
 allocator keep one such list per size class.

 A cell of class `c` has `2^(c + log)` bytes; memory maps word addresses to words.
 */
module SizeClassLists {
  import opened Options
  import opened Bits

  datatype Cell = Cell(start: nat, sc: nat)

  function Size(log: nat, c: nat): nat
  {
    Pow2(c + log)
  }

  predicate Inside(log: nat, p: Cell, x: nat)
  {
    p.start <= x < p.start + Size(log, p.sc)
  }

  predicate Apart(log: nat, p: Cell, q: Cell)
  {
    p.start + Size(log, p.sc) <= q.start || q.start + Size(log, q.sc) <= p.start
  }

  /** The addresses that belong to some cell. */
  ghost function Covered(log: nat, cells: set<Cell>): iset<nat>
  {
    iset x: nat | IsCovered(log, cells, x)
  }

  ghost predicate IsCovered(log: nat, cells: set<Cell>, x: nat)
  {
    exists p :: p in cells && Inside(log, p, x)
  }

  predicate InSpan(start: nat, length: nat, x: nat)
  {
    start <= x < start + length
  }

  ghost function Span(start: nat, length: nat): iset<nat>
  {
    iset x: nat | InSpan(start, length, x)
  }

  ghost predicate Separated(log: nat, cells: set<Cell>)
  {
    forall p, q :: p in cells && q in cells && p != q ==> Apart(log, p, q)
  }

  /** A cell that may be on a list: not at address zero, and aligned to its own size. */
  ghost predicate Proper(log: nat, p: Cell)
  {
    p.start > 0 && Aligned(p.start, p.sc + log)
  }

  ghost predicate AllProper(log: nat, cells: set<Cell>)
  {
    forall p :: p in cells ==> Proper(log, p)
  }

  // ---- lists in memory ----

  function At(list: seq<nat>, i: nat): nat
  {
    if i < |list| then list[i] else 0
  }

  /** `list` is what the chain from `head` runs through: no zero, no cycle, ended by zero. */
  ghost predicate Linked(mem: map<nat, nat>, head: nat, list: seq<nat>)
  {
    && head == At(list, 0)
    && (forall i :: 0 <= i < |list| ==> list[i] != 0 && list[i] in mem && mem[list[i]] == At(list, i + 1))
    && (forall i, j :: 0 <= i < j < |list| ==> list[i] != list[j])
  }

  ghost function FreeCells(lists: seq<seq<nat>>): set<Cell>
  {
    set c, a | 0 <= c < |lists| && a in lists[c] :: Cell(a, c)
  }

  ghost predicate OnSomeList(lists: seq<seq<nat>>, a: nat)
  {
    exists c :: 0 <= c < |lists| && a in lists[c]
  }

  lemma FreeCellsAfterPush(lists: seq<seq<nat>>, c: nat, a: nat)
    requires c < |lists|
    ensures FreeCells(lists[c := [a] + lists[c]]) == FreeCells(lists) + {Cell(a, c)}
  {
  }

  lemma FreeCellsAfterPop(lists: seq<seq<nat>>, c: nat)
    requires c < |lists| && lists[c] != []
    requires lists[c][0] !in lists[c][1..]
    ensures FreeCells(lists[c := lists[c][1..]]) == FreeCells(lists) - {Cell(lists[c][0], c)}
    ensures Cell(lists[c][0], c) in FreeCells(lists)
  {
    forall a
      ensures a in lists[c] <==> a == lists[c][0] || a in lists[c][1..]
    {
    }
  }

  lemma LinkedAfterPush(mem: map<nat, nat>, head: nat, list: seq<nat>, a: nat)
    requires Linked(mem, head, list) && a != 0 && a !in list
    ensures Linked(mem[a := head], a, [a] + list)
  {
    var longer := [a] + list;
    forall i | 0 <= i < |longer|
      ensures longer[i] != 0 && longer[i] in mem[a := head] && mem[a := head][longer[i]] == At(longer, i + 1)
    {
    }
  }

  /** A chain from address zero is the empty list: a list whose head becomes zero has lost its cells. */
  lemma ZeroEndsList(mem: map<nat, nat>, head: nat, list: seq<nat>)
    requires Linked(mem, head, list)
    ensures Linked(mem[0 := head], 0, [])
    ensures Linked(mem[0 := head], 0, list) <==> list == []
  {
  }

  class Pool {
    const log: nat
    const table: array<nat>
    var mem: map<nat, nat>
    ghost var lists: seq<seq<nat>>
    ghost var out: set<Cell>
    ghost var total: iset<nat>

    ghost predicate Wired()
      reads this, table
    {
      && |lists| == table.Length
      && forall c :: 0 <= c < |lists| ==> Linked(mem, table[c], lists[c])
    }

    /** The lists are in order, and the cells partition the addresses the pool was given. */
    ghost predicate Valid()
      reads this, table
    {
      Wired() && Partition(log, Free(), out, total)
    }

    ghost function Free(): set<Cell>
      reads this
    {
      FreeCells(lists)
    }

    /** The cell `unit` of class `c` is off the lists and not yet handed out. */
    ghost predicate Held(unit: nat, c: nat)
      reads this
    {
      Cell(unit, c) !in Free() + out && Partition(log, Free(), out + {Cell(unit, c)}, total)
    }

    constructor (log: nat, classes: nat, mem: map<nat, nat>)
      ensures Valid() && fresh(table) && this.log == log && this.mem == mem
      ensures lists == seq(classes, _ => []) && out == {} && total == iset{}
    {
      this.log := log;
      table := new nat[classes](_ => 0);
      this.mem := mem;
      lists := seq(classes, _ => []);
      out, total := {}, iset{};
    }

    /** Puts a cell at the head of its list; a cell at address zero, which ends every list, empties it. */
    method Push(cell: nat, sc: nat)
      requires Wired() && sc < table.Length && !OnSomeList(lists, cell)
      modifies this`mem, this`lists, table
      ensures Wired()
      ensures cell != 0 ==> lists == old(lists)[sc := [cell] + old(lists)[sc]]
      ensures cell != 0 ==> FreeCells(lists) == FreeCells(old(lists)) + {Cell(cell, sc)}
      ensures cell == 0 ==> lists == old(lists)[sc := []]
      ensures forall a :: a in old(mem) && a != cell ==> a in mem && mem[a] == old(mem)[a]
    {
      if cell != 0 {
        LinkedAfterPush(mem, table[sc], lists[sc], cell);
        FreeCellsAfterPush(lists, sc, cell);
      }
      mem := mem[cell := table[sc]];
      table[sc] := cell;
      lists := lists[sc := if cell == 0 then [] else [cell] + lists[sc]];
      forall c | 0 <= c < |lists| && c != sc
        ensures Linked(mem, table[c], lists[c])
      {
        assert cell !in old(lists)[c];
      }
    }

    method Pop(sc: nat) returns (r: Option<nat>)
      requires Wired() && sc < table.Length
      modifies this`lists, table
      ensures Wired()
      ensures r.None? <==> old(lists)[sc] == []
      ensures r.None? ==> lists == old(lists)
      ensures r.Some? ==>
                && r.value == old(lists)[sc][0]
                && lists == old(lists)[sc := old(lists)[sc][1..]]
                && Cell(r.value, sc) in FreeCells(old(lists))
                && FreeCells(lists) == FreeCells(old(lists)) - {Cell(r.value, sc)}
    {
      if table[sc] == 0 {
        return None;
      }
      var cell := table[sc];
      FreeCellsAfterPop(lists, sc);
      table[sc] := mem[cell];
      lists := lists[sc := lists[sc][1..]];
      return Some(cell);
    }

    /** A store to an address that is not a cell on a list. */
    method Store(address: nat, word: nat)
      requires Wired() && !OnSomeList(lists, address)
      modifies this`mem
      ensures Wired() && mem == old(mem)[address := word]
    {
      mem := mem[address := word];
      forall c | 0 <= c < |lists|
        ensures Linked(mem, table[c], lists[c])
      {
        assert address !in lists[c];
      }
    }

    method TakeHead(c: nat) returns (r: Option<nat>)
      requires Valid() && c < table.Length
      modifies this`lists, table
      ensures Wired()
      ensures r.None? <==> old(lists)[c] == []
      ensures r.None? ==> Valid() && lists == old(lists)
      ensures r.Some? ==>
                && r.value == old(lists)[c][0]
                && lists == old(lists)[c := old(lists)[c][1..]]
                && Held(r.value, c)
    {
      ghost var free := Free();
      r := Pop(c);
      if r.Some? {
        assert Free() + (out + {Cell(r.value, c)}) == free + out;
      }
    }

    /** Give a handed-out cell back. */
    method TakeBack(cell: nat, sc: nat)
      requires Valid() && sc < table.Length && Cell(cell, sc) in out
      modifies this`mem, this`lists, this`out, table
      ensures Valid()
      ensures out == old(out) - {Cell(cell, sc)}
      ensures lists == old(lists)[sc := [cell] + old(lists)[sc]]
    {
      ghost var free := Free();
      NotOnList(log, lists, free + out - {Cell(cell, sc)}, Cell(cell, sc));
      Push(cell, sc);
      out := out - {Cell(cell, sc)};
      assert Free() + out == free + old(out);
    }

    /** List a cell of memory the resource did not have before. A cell at address zero is not gained, and the
        cells of its list are lost. */
    method Adopt(cell: nat, sc: nat)
      requires Valid() && sc < table.Length && Aligned(cell, sc + log)
      requires Span(cell, Size(log, sc)) !! total
      modifies this`mem, this`lists, this`total, table
      ensures Valid()
      ensures cell > 0 ==>
                && total == old(total) + Span(cell, Size(log, sc))
                && lists == old(lists)[sc := [cell] + old(lists)[sc]]
                && old(Free()) <= Free()
      ensures cell == 0 ==>
                && total == old(total) - Covered(log, CellsIn(old(lists), sc))
                && lists == old(lists)[sc := []]
    {
      hide Linked;
      ghost var free := Free();
      if cell > 0 {
        UncoveredIsApart(log, free + out, Cell(cell, sc));
        CoveredAdd(log, free + out, Cell(cell, sc));
        NotOnList(log, lists, free + out, Cell(cell, sc));
        assert Free() + out + {Cell(cell, sc)} == (free + {Cell(cell, sc)}) + out;
        total := total + Span(cell, Size(log, sc));
      } else {
        ZeroIsOffLists(log, lists, out, total);
        PartitionDrop(log, lists, out, total, sc);
        total := total - Covered(log, CellsIn(lists, sc));
      }
      Push(cell, sc);
    }

    /** Take the head of a list out of the pool for good. */
    method GiveAway(c: nat) returns (r: Option<nat>)
      requires Valid() && c < table.Length
      modifies this`lists, this`total, table
      ensures Valid()
      ensures r.None? <==> old(lists)[c] == []
      ensures r.None? ==> lists == old(lists) && total == old(total)
      ensures r.Some? ==>
                && r.value == old(lists)[c][0]
                && lists == old(lists)[c := old(lists)[c][1..]]
                && total == old(total) - Span(r.value, Size(log, c))
    {
      ghost var free := Free();
      r := Pop(c);
      if r.Some? {
        ghost var p := Cell(r.value, c);
        assert Free() + out == free + out - {p};
        CoveredRemove(log, free + out, p);
        total := total - Span(r.value, Size(log, c));
      }
    }

    /** Split a held cell: list its upper half and keep the lower. */
    method SplitOff(unit: nat, parentClass: nat, childClass: nat)
      requires Wired() && parentClass == childClass + 1 <= table.Length && Held(unit, parentClass)
      modifies this`mem, this`lists, table
      ensures Wired()
      ensures lists == old(lists)[childClass := [unit + Size(log, childClass)] + old(lists)[childClass]]
      ensures Held(unit, childClass)
    {
      hide Linked, Partition, Separated;
      var unit2 := unit + Size(log, childClass);
      PartitionSplit(log, lists, out, total, unit, parentClass, childClass);
      Push(unit2, childClass);
    }

    lemma ZeroIsNotHeld()
      requires Valid()
      ensures 0 !in total
    {
      ZeroIsUncovered(log, Free(), out, total);
    }

    /** Whatever a client stores in a frame it was handed, no list changes. */
    method ClientStore(frame: Cell, address: nat, word: nat)
      requires Valid() && frame in out && Inside(log, frame, address)
      modifies this`mem
      ensures Valid() && lists == old(lists) && mem == old(mem)[address := word]
    {
      ClientAddressIsOffLists(log, lists, out, frame, address);
      Store(address, word);
    }
  }

  // ---- sets of cells ----

  /** Splitting a cell into halves keeps the cells apart and the covered addresses the same. */
  lemma SplitCells(log: nat, cells: set<Cell>, a: nat, c: nat)
    requires Cell(a, c + 1) !in cells && Separated(log, cells + {Cell(a, c + 1)})
    requires Proper(log, Cell(a, c + 1))
    ensures var low, high := Cell(a, c), Cell(a + Size(log, c), c);
            && low !in cells && high !in cells && low != high
            && Proper(log, low) && Proper(log, high)
            && Separated(log, cells + {high} + {low})
            && Covered(log, cells + {high} + {low}) == Covered(log, cells + {Cell(a, c + 1)})
  {
    var whole, low, high := Cell(a, c + 1), Cell(a, c), Cell(a + Size(log, c), c);
    AlignedLess(a, c + log, c + 1 + log);
    AlignedPow2(c + log);
    AlignedSum(a, Size(log, c), c + log);
    forall p | p in cells
      ensures Apart(log, p, low) && Apart(log, p, high) && p != low && p != high
    {
      assert Apart(log, p, whole);
    }
    forall x: nat
      ensures x in Covered(log, cells + {high} + {low}) <==> x in Covered(log, cells + {whole})
    {
      assert Inside(log, whole, x) <==> Inside(log, low, x) || Inside(log, high, x);
      assert low in cells + {high} + {low} && high in cells + {high} + {low} && whole in cells + {whole};
    }
  }

  lemma StartIsInside(log: nat, p: Cell)
    ensures Inside(log, p, p.start)
  {
  }

  /** A cell apart from all cells on the lists does not start at a listed address. */
  lemma NotOnList(log: nat, lists: seq<seq<nat>>, cells: set<Cell>, p: Cell)
    requires FreeCells(lists) <= cells && p !in cells && Separated(log, cells + {p})
    ensures !OnSomeList(lists, p.start)
  {
    forall c | 0 <= c < |lists|
      ensures p.start !in lists[c]
    {
      var q := Cell(p.start, c);
      SameStartOverlaps(log, p, q);
      assert p.start in lists[c] ==> q in FreeCells(lists);
    }
  }

  lemma SameStartOverlaps(log: nat, p: Cell, q: Cell)
    requires p.start == q.start
    ensures !Apart(log, p, q)
  {
  }

  lemma CoveredAdd(log: nat, cells: set<Cell>, p: Cell)
    ensures Covered(log, cells + {p}) == Covered(log, cells) + Span(p.start, Size(log, p.sc))
  {
    forall x: nat
      ensures x in Covered(log, cells + {p}) <==> x in Covered(log, cells) || Inside(log, p, x)
    {
      assert p in cells + {p};
    }
  }

  lemma CoveredRemove(log: nat, cells: set<Cell>, p: Cell)
    requires Separated(log, cells) && p in cells
    ensures Covered(log, cells - {p}) == Covered(log, cells) - Span(p.start, Size(log, p.sc))
  {
    assert cells - {p} + {p} == cells;
    CoveredAdd(log, cells - {p}, p);
    forall x: nat | IsCovered(log, cells - {p}, x)
      ensures !InSpan(p.start, Size(log, p.sc), x)
    {
      var q :| q in cells - {p} && Inside(log, q, x);
      assert Apart(log, p, q);
    }
  }

  /** A cell whose addresses are not covered is apart from every cell. */
  lemma UncoveredIsApart(log: nat, cells: set<Cell>, p: Cell)
    requires Separated(log, cells)
    requires Covered(log, cells) !! Span(p.start, Size(log, p.sc))
    ensures p !in cells && Separated(log, cells + {p})
  {
    forall q | q in cells
      ensures Apart(log, p, q)
    {
      var x := if p.start <= q.start then q.start else p.start;
      assert !Apart(log, p, q) ==> InSpan(p.start, Size(log, p.sc), x) && Inside(log, q, x);
      assert Inside(log, q, x) ==> IsCovered(log, cells, x);
      assert InSpan(p.start, Size(log, p.sc), x) ==> x in Span(p.start, Size(log, p.sc));
    }
    StartIsInside(log, p);
    assert InSpan(p.start, Size(log, p.sc), p.start);
  }

  // ---- the state of an allocator: cells on the lists, cells handed out, addresses they cover ----

  /** Every address of `total` is in exactly one cell, free or handed out, and all cells are proper. */
  ghost predicate Partition(log: nat, free: set<Cell>, out: set<Cell>, total: iset<nat>)
  {
    && free !! out
    && AllProper(log, free + out)
    && Separated(log, free + out)
    && Covered(log, free + out) == total
  }

  /** The cells on the list of a class. */
  ghost function CellsIn(lists: seq<seq<nat>>, c: nat): set<Cell>
    requires c < |lists|
  {
    set a | a in lists[c] :: Cell(a, c)
  }

  lemma ZeroIsOffLists(log: nat, lists: seq<seq<nat>>, out: set<Cell>, total: iset<nat>)
    requires Partition(log, FreeCells(lists), out, total)
    ensures !OnSomeList(lists, 0)
  {
    forall c | 0 <= c < |lists|
      ensures 0 !in lists[c]
    {
      var p := Cell(0, c);
      assert p !in FreeCells(lists) + out;
      assert p !in FreeCells(lists);
    }
  }

  /** Dropping a whole list leaves a partition of what the other cells cover. */
  lemma PartitionDrop(log: nat, lists: seq<seq<nat>>, out: set<Cell>, total: iset<nat>, c: nat)
    requires c < |lists| && Partition(log, FreeCells(lists), out, total)
    ensures Partition(log, FreeCells(lists[c := []]), out, total - Covered(log, CellsIn(lists, c)))
  {
    var free, lost := FreeCells(lists), CellsIn(lists, c);
    assert FreeCells(lists[c := []]) == free - lost;
    assert lost <= free;
    assert (free - lost) + out == (free + out) - lost;
    CoveredWithout(log, free + out, lost);
  }

  lemma CoveredWithout(log: nat, cells: set<Cell>, lost: set<Cell>)
    requires Separated(log, cells) && lost <= cells
    ensures Covered(log, cells - lost) == Covered(log, cells) - Covered(log, lost)
  {
    forall x: nat
      ensures IsCovered(log, cells - lost, x) <==> IsCovered(log, cells, x) && !IsCovered(log, lost, x)
    {
      if p :| p in cells - lost && Inside(log, p, x) {
        forall q | q in lost
          ensures !Inside(log, q, x)
        {
          assert Apart(log, p, q);
        }
      }
      if p :| p in cells && Inside(log, p, x) && !IsCovered(log, lost, x) {
        assert p in cells - lost;
      }
    }
  }

  lemma ZeroIsUncovered(log: nat, free: set<Cell>, out: set<Cell>, total: iset<nat>)
    requires Partition(log, free, out, total)
    ensures 0 !in total
  {
    assert forall p :: p in free + out ==> p.start > 0;
  }

  lemma PartitionSplit(log: nat, lists: seq<seq<nat>>, out: set<Cell>, total: iset<nat>, unit: nat, k: nat, c: nat)
    requires k == c + 1 && Cell(unit, k) !in FreeCells(lists) + out
    requires Partition(log, FreeCells(lists), out + {Cell(unit, k)}, total)
    ensures var high := Cell(unit + Size(log, c), c);
            && high.start != 0 && !OnSomeList(lists, high.start)
            && Cell(unit, c) !in FreeCells(lists) + {high} + out
            && Partition(log, FreeCells(lists) + {high}, out + {Cell(unit, c)}, total)
  {
    var free := FreeCells(lists);
    var low, high := Cell(unit, c), Cell(unit + Size(log, c), c);
    assert free + (out + {Cell(unit, k)}) == free + out + {Cell(unit, k)};
    SplitCells(log, free + out, unit, c);
    assert free + {high} + (out + {low}) == free + out + {high} + {low};
    NotOnList(log, lists, free + out, high);
  }

  lemma SpanSplits(start: nat, m: nat, n: nat)
    ensures Span(start, m) + Span(start + m, n) == Span(start, m + n)
    ensures Span(start, m) !! Span(start + m, n)
  {
    forall x: nat
      ensures InSpan(start, m + n, x) <==> InSpan(start, m, x) || InSpan(start + m, n, x)
    {
    }
  }

  /** No class from `sc` up has a free cell. */
  ghost predicate NothingFrom(lists: seq<seq<nat>>, sc: nat)
  {
    forall c :: sc <= c < |lists| ==> lists[c] == []
  }

  /** The lists after the head of class `k` was taken and split down to class `sc`. */
  ghost function SplitLists(log: nat, lists: seq<seq<nat>>, a: nat, sc: nat, k: nat): (r: seq<seq<nat>>)
    ensures |r| == |lists|
  {
    seq(|lists|, c requires 0 <= c < |lists| =>
      if sc <= c < k then [a + Size(log, c)] + lists[c] else lists[c])
  }

  lemma SplitListsNone(log: nat, lists: seq<seq<nat>>, a: nat, k: nat)
    ensures SplitLists(log, lists, a, k, k) == lists
  {
  }

  lemma SplitListsStep(log: nat, lists: seq<seq<nat>>, a: nat, c: nat, k: nat)
    requires c < k <= |lists|
    ensures SplitLists(log, lists, a, c, k) ==
            SplitLists(log, lists, a, c + 1, k)[c := [a + Size(log, c)] + SplitLists(log, lists, a, c + 1, k)[c]]
  {
  }

  /** What `AllocateCell` returns and leaves: the head of the smallest sufficient class, split down. */
  ghost predicate Allocated(log: nat, before: seq<seq<nat>>, sc: nat, r: Option<nat>, after: seq<seq<nat>>)
  {
    match r
    case None => NothingFrom(before, sc) && after == before
    case Some(a) => exists k: nat :: AllocatedFrom(log, before, sc, a, after, k)
  }

  ghost predicate AllocatedFrom(log: nat, before: seq<seq<nat>>, sc: nat, a: nat, after: seq<seq<nat>>, k: nat)
  {
    && sc <= k < |before| && before[k] != [] && a == before[k][0]
    && (forall c :: sc <= c < k ==> before[c] == [])
    && after == SplitLists(log, before[k := before[k][1..]], a, sc, k)
  }

  lemma OutIsAligned(log: nat, free: set<Cell>, out: set<Cell>, total: iset<nat>, p: Cell)
    requires Partition(log, free, out, total) && p in out
    ensures Aligned(p.start, p.sc + log)
  {
  }

  /** Nothing is allocated exactly when there is nothing. */
  lemma AllocatedIfAny(log: nat, before: seq<seq<nat>>, sc: nat, r: Option<nat>, after: seq<seq<nat>>)
    requires Allocated(log, before, sc, r, after)
    ensures r.None? <==> NothingFrom(before, sc)
  {
  }

  lemma AllocatedHead(log: nat, lists: seq<seq<nat>>, sc: nat)
    requires sc < |lists| && lists[sc] != []
    ensures Allocated(log, lists, sc, Some(lists[sc][0]), lists[sc := lists[sc][1..]])
  {
    var popped := lists[sc := lists[sc][1..]];
    assert SplitLists(log, popped, lists[sc][0], sc, sc) == popped;
    assert AllocatedFrom(log, lists, sc, lists[sc][0], popped, sc);
  }

  lemma AllocatedNothing(log: nat, before: seq<seq<nat>>, sc: nat, after: seq<seq<nat>>)
    requires sc < |before| && before[sc] == [] && Allocated(log, before, sc + 1, None, after)
    ensures Allocated(log, before, sc, None, after)
  {
  }

  /** Allocating by recursion: take a cell of the next class and split it once. */
  lemma AllocatedBySplit(log: nat, before: seq<seq<nat>>, sc: nat, a: nat, mid: seq<seq<nat>>)
    requires sc < |before| && before[sc] == [] && Allocated(log, before, sc + 1, Some(a), mid)
    ensures |mid| == |before|
    ensures Allocated(log, before, sc, Some(a), mid[sc := [a + Size(log, sc)] + mid[sc]])
  {
    var k: nat :| AllocatedFrom(log, before, sc + 1, a, mid, k);
    SplitListsStep(log, before[k := before[k][1..]], a, sc, k);
    assert AllocatedFrom(log, before, sc, a, mid[sc := [a + Size(log, sc)] + mid[sc]], k);
  }

  lemma ClientAddressIsOffLists(log: nat, lists: seq<seq<nat>>, out: set<Cell>, frame: Cell, address: nat)
    requires Separated(log, FreeCells(lists) + out) && FreeCells(lists) !! out
    requires frame in out && Inside(log, frame, address)
    ensures !OnSomeList(lists, address)
  {
    forall c | 0 <= c < |lists|
      ensures address !in lists[c]
    {
      var q := Cell(address, c);
      StartIsInside(log, q);
      assert address in lists[c] ==> q in FreeCells(lists);
    }
  }
}
