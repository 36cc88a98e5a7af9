/**
 Whole runs of the buddy allocator. A table is a function of the units that are outstanding, so it does
 not depend on the order in which they came to be outstanding.
 */
module BuddyHistories {
  import opened Options
  import opened Bits
  import opened BuddyTree
  import opened BitTable
  import opened BitMapPageAllocator

  /** Two well-formed tables with the same free units agree word for word. */
  lemma TableIsUnique(L: nat, t: seq<bv64>, r: seq<bv64>)
    requires WellFormed(L, t) && WellFormed(L, r)
    requires FreeUnits(L, t) == FreeUnits(L, r)
    ensures t == r
  {
    CanonicalIsUnique(L, FreeCells(L, t), FreeCells(L, r));
    forall b: nat
      ensures BitAt(t, b) == BitAt(r, b)
    {
      if BitAt(t, b) || BitAt(r, b) {
        assert IsCell(L, b);
        assert b in FreeCells(L, t) <==> b in FreeCells(L, r);
      }
    }
    TablesWithSameBits(t, r);
  }

  /** Acquiring a run and releasing it again restores the table bit for bit. */
  lemma AcquireThenRelease(L: nat, t: seq<bv64>, n: nat, start: nat, mid: seq<bv64>, end: seq<bv64>)
    requires WellFormed(L, t)
    requires AcquireStep(L, t, n, Some(start), mid)
    requires ReleaseStep(L, mid, start, n, end)
    ensures Outstanding(L, mid, start, n)
    ensures end == t
  {
    assert Range(start, n) <= Range(start, Pow2(SizeClass(n)));
    TableIsUnique(L, t, end);
  }

  datatype Event =
    | Acquire(n: nat, start: nat)
    | Exhausted(n: nat)
    | Release(start: nat, n: nat)

  ghost predicate Step(L: nat, before: seq<bv64>, e: Event, after: seq<bv64>)
  {
    match e
    case Acquire(n, start) => AcquireStep(L, before, n, Some(start), after)
    case Exhausted(n) => AcquireStep(L, before, n, None, after)
    case Release(start, n) => Outstanding(L, before, start, n) && ReleaseStep(L, before, start, n, after)
  }

  /** The units in clients' hands after some events. */
  ghost function InUse(events: seq<Event>): set<nat>
  {
    if events == [] then {} else
      var before := InUse(events[..|events| - 1]);
      match events[|events| - 1]
      case Acquire(n, start) => before + Range(start, n)
      case Exhausted(_) => before
      case Release(start, n) => before - Range(start, n)
  }

  /** `tables` are the states of a run of `events` from a freshly initialised allocator. */
  ghost predicate History(L: nat, tables: seq<seq<bv64>>, events: seq<Event>)
  {
    && |tables| == |events| + 1
    && WellFormed(L, tables[0]) && FreeUnits(L, tables[0]) == Range(0, Pow2(L))
    && forall i :: 0 <= i < |events| ==> Step(L, tables[i], events[i], tables[i + 1])
  }

  /** In every state of every run the table is well formed, and each unit is free or in use, never both. */
  lemma {:induction false} HistoryInvariant(L: nat, tables: seq<seq<bv64>>, events: seq<Event>)
    requires History(L, tables, events)
    ensures WellFormed(L, tables[|events|])
    ensures FreeUnits(L, tables[|events|]) == Range(0, Pow2(L)) - InUse(events)
    ensures InUse(events) <= Range(0, Pow2(L))
  {
    if events != [] {
      var k := |events| - 1;
      var shorter := events[..k];
      HistoryInvariant(L, tables[..k + 1], shorter);
      assert Step(L, tables[k], events[k], tables[k + 1]);
      UnitsAreBounded(L, FreeCells(L, tables[k + 1]));
      if events[k].Acquire? {
        assert Range(events[k].start, events[k].n) <= Range(events[k].start, Pow2(SizeClass(events[k].n)));
      }
    }
  }

  lemma UnitsAreBounded(L: nat, free: set<nat>)
    ensures Units(L, free) <= Range(0, Pow2(L))
  {
  }

  /** Two runs that leave the same units in use end in the same table, whatever happened in between. */
  lemma SameUnitsInUseSameTable(L: nat, ts: seq<seq<bv64>>, es: seq<Event>, rs: seq<seq<bv64>>, fs: seq<Event>)
    requires History(L, ts, es) && History(L, rs, fs)
    requires InUse(es) == InUse(fs)
    ensures ts[|es|] == rs[|fs|]
  {
    HistoryInvariant(L, ts, es);
    HistoryInvariant(L, rs, fs);
    TableIsUnique(L, ts[|es|], rs[|fs|]);
  }
}
