/**
 The page table: `translate`, `map` and `unmap` on tables that live in frames of physical memory and come
 from a pool of free frames. A page is 1 GB, 2 MB or 4 KB large by the depth, 1, 2 or 3, of the table whose
 entry maps it.

 Beside memory stand two ghosts: the shadow tree, and the list of all writes so far, which is the reference:
 an address translates as the last write to a page it is in says.
 */
module PageTable {
  import opened Options
  import opened PageTableEntry
  import opened PageTree
  import opened PageTranslation

  /** A page has been mapped by an entry or, by the entry zero, unmapped. */
  datatype Write = Write(page: bv64, depth: nat, word: bv64)

  /** The reference: the last write to a page that holds the address. */
  ghost function Meaning(writes: seq<Write>, a: bv64): Lookup
  {
    if writes == [] then Unmapped
    else
      var last := writes[|writes| - 1];
      if InPage(a, last.page, last.depth) then Written(last.word, a, last.depth)
      else Meaning(writes[..|writes| - 1], a)
  }

  ghost predicate Refines(mem: Memory, tree: Tree, writes: seq<Write>)
  {
    forall a :: LookupAt(mem, tree, a) == Meaning(writes, a)
  }

  lemma WriteRefines(mem: Memory, tree: Tree, mem': Memory, tree': Tree, writes: seq<Write>, w: Write)
    requires Refines(mem, tree, writes) && PageWritten(mem, tree, mem', tree', w.page, w.depth, w.word)
    ensures Refines(mem', tree', writes + [w])
  {
    hide LookupAt, InPage, Written;
    var writes' := writes + [w];
    assert writes'[..|writes'| - 1] == writes;
    forall a
      ensures LookupAt(mem', tree', a) == Meaning(writes', a)
    {
      assert LookupAt(mem, tree, a) == Meaning(writes, a);
    }
  }

  // ---- going down the path of an address ----

  lemma Descend(mem: Memory, tree: Tree, a: bv64, d: nat)
    requires IsTree(mem, tree) && d <= LAST && PathOf(a, d) in tree
    ensures tree[PathOf(a, d)] in mem && |mem[tree[PathOf(a, d)]]| == ENTRIES
    ensures var w := mem[tree[PathOf(a, d)]][Index(a, d)];
            && w == WordAt(mem, tree, PathOf(a, d), Index(a, d))
            && (d == LAST ==> PathOf(a, d + 1) !in tree)
            && (d < LAST ==> (IsTable(w) <==> PathOf(a, d + 1) in tree))
            && (d < LAST && IsTable(w) ==> tree[PathOf(a, d + 1)] == FrameOf(w))
            && (d < LAST && !IsEmpty(w) ==> IsTable(w) || (d > 0 && IsBlock(w)))
            && (IsEmpty(w) || IsBlock(w) ==> !IsTable(w))
  {
    hide Index, Present, IsBlock, FrameOf;
    DepthOfPath(a, d);
    DepthOfPath(a, d + 1);
    EmptyEntry();
  }

  /** How far down the path of an address, up to depth `n`, there are tables. */
  ghost function Deepest(tree: Tree, a: bv64, n: nat): (d: nat)
    requires n <= 4
    ensures d <= n
  {
    if n == 0 || PathOf(a, n) in tree then n else Deepest(tree, a, n - 1)
  }

  lemma {:induction false} DeepestIsOnPath(mem: Memory, tree: Tree, a: bv64, n: nat)
    requires Shaped(mem, tree) && n <= 4
    ensures Deepest(tree, a, n) <= n
    ensures forall m: nat :: m <= n ==> (PathOf(a, m) in tree <==> m <= Deepest(tree, a, n))
  {
    hide Index;
    if n > 0 {
      DeepestIsOnPath(mem, tree, a, n - 1);
      if PathOf(a, n) in tree {
        forall m: nat | m <= n
          ensures PathOf(a, m) in tree
        {
          OnPath(mem, tree, a, m, n);
        }
      }
    }
  }

  /** The depths at which the path of a page has no table yet. */
  ghost function Missing(tree: Tree, page: bv64, depth: nat): set<nat>
    requires depth <= LAST
  {
    set n: nat | 0 < n <= depth && PathOf(page, n) !in tree
  }

  lemma {:induction false} MissingTables(mem: Memory, tree: Tree, page: bv64, depth: nat)
    requires Shaped(mem, tree) && depth <= LAST
    ensures |Missing(tree, page, depth)| == depth - Deepest(tree, page, depth)
  {
    hide PathOf, Shaped;
    DeepestIsOnPath(mem, tree, page, depth);
    if depth == 0 || PathOf(page, depth) in tree {
      assert Missing(tree, page, depth) == {};
    } else {
      MissingTables(mem, tree, page, depth - 1);
      assert Missing(tree, page, depth) == Missing(tree, page, depth - 1) + {depth};
    }
  }

  /** What `map` needs: no larger page in the way, and frames for the tables that are missing. */
  ghost predicate MapPossible(mem: Memory, tree: Tree, free: set<Frame>, page: bv64, depth: nat)
    requires depth <= LAST
  {
    NoLargerPage(mem, tree, page, depth) && |Missing(tree, page, depth)| <= |free|
  }

  // ---- the frames of tables and the pool ----

  ghost predicate Pool(tree: Tree, free: set<Frame>)
  {
    free !! tree.Values && forall f :: f in free ==> IsFrame(f.start)
  }

  ghost predicate SubTree(tree: Tree, tree': Tree)
  {
    forall p :: p in tree ==> p in tree' && tree'[p] == tree[p]
  }

  /** The tree has grown by tables on the path of an address, down to depth `d`, with frames of the pool. */
  ghost predicate GrownTables(tree0: Tree, free0: set<Frame>, tree: Tree, free: set<Frame>, a: bv64, d: nat, depth: nat)
    requires d <= depth <= LAST
  {
    && Pool(tree, free) && PathOf(a, d) in tree && SubTree(tree0, tree)
    && free + tree.Values == free0 + tree0.Values
    && (forall n: nat :: d < n <= 4 ==> (PathOf(a, n) in tree <==> PathOf(a, n) in tree0))
    && |free| + (if d > Deepest(tree0, a, depth) then d - Deepest(tree0, a, depth) else 0) == |free0|
  }

  /** Nothing else has changed. */
  ghost predicate Grown(mem0: Memory, tree0: Tree, free0: set<Frame>, mem: Memory, tree: Tree, free: set<Frame>,
                        a: bv64, d: nat, depth: nat)
    requires d <= depth <= LAST
  {
    && GrownTables(tree0, free0, tree, free, a, d, depth)
    && IsTree(mem, tree) && SameLeaves(mem0, tree0, mem, tree) && LinksKept(mem0, tree0, mem, tree)
    && (PathOf(a, d) in tree0 ==> mem == mem0 && tree == tree0 && free == free0)
    && (Populated(mem0, tree0, Root) ==> Populated(mem, tree, Root) || Populated(mem, tree, PathOf(a, d)))
  }

  lemma GrowsFromRoot(mem: Memory, tree: Tree, free: set<Frame>, a: bv64, depth: nat)
    requires depth <= LAST && IsTree(mem, tree) && Pool(tree, free)
    ensures Grown(mem, tree, free, mem, tree, free, a, 0, depth)
  {
    hide Separate, Linked, Pointed, Sound, Pool, LeafAt, Populated, WordAt;
  }

  lemma GrowsByNothing(mem0: Memory, tree0: Tree, free0: set<Frame>, mem: Memory, tree: Tree, free: set<Frame>,
                       a: bv64, d: nat, depth: nat)
    requires d < depth <= LAST && Shaped(mem0, tree0) && PathOf(a, d + 1) in tree
    requires Grown(mem0, tree0, free0, mem, tree, free, a, d, depth)
    ensures Grown(mem0, tree0, free0, mem, tree, free, a, d + 1, depth)
  {
    hide IsTree, Pool, LeafAt, LinksKept, Populated, Deepest, Index;
    OnPath(mem0, tree0, a, d, d + 1);
    DeepestIsOnPath(mem0, tree0, a, depth);
  }

  lemma PoolAfterHang(tree: Tree, free: set<Frame>, slot: Path, f: Frame)
    requires Pool(tree, free) && f in free && slot !in tree
    ensures Pool(tree[slot := f], free - {f}) && SubTree(tree, tree[slot := f])
    ensures (free - {f}) + tree[slot := f].Values == free + tree.Values && |free - {f}| + 1 == |free|
  {
    hide IsFrame;
    FramesAfterHang(tree, slot, f);
  }

  lemma GrownTablesByOne(mem0: Memory, tree0: Tree, free0: set<Frame>, tree: Tree, free: set<Frame>,
                         a: bv64, d: nat, depth: nat, f: Frame)
    requires d < depth <= LAST && Shaped(mem0, tree0) && f in free && PathOf(a, d + 1) !in tree
    requires GrownTables(tree0, free0, tree, free, a, d, depth)
    ensures GrownTables(tree0, free0, tree[PathOf(a, d + 1) := f], free - {f}, a, d + 1, depth)
  {
    hide Deepest, Index, IsFrame, Pool;
    PoolAfterHang(tree, free, PathOf(a, d + 1), f);
    DeepestIsOnPath(mem0, tree0, a, depth);
    forall n: nat | d + 1 < n <= 4
      ensures PathOf(a, n) in tree[PathOf(a, d + 1) := f] <==> PathOf(a, n) in tree0
    {
      DepthOfPath(a, n);
      DepthOfPath(a, d + 1);
    }
  }

  lemma GrowsByTable(mem0: Memory, tree0: Tree, free0: set<Frame>, mem: Memory, tree: Tree, free: set<Frame>,
                     a: bv64, d: nat, depth: nat, f: Frame)
    requires d < depth <= LAST && Shaped(mem0, tree0) && f in free
    requires Grown(mem0, tree0, free0, mem, tree, free, a, d, depth)
    requires IsEmpty(WordAt(mem, tree, PathOf(a, d), Index(a, d)))
    ensures tree[PathOf(a, d)] in mem && tree[PathOf(a, d)] != f && |mem[tree[PathOf(a, d)]]| == ENTRIES
    ensures Grown(mem0, tree0, free0, Store(mem[f := EmptyTable()], tree[PathOf(a, d)], Index(a, d), TableEntry(f)),
                  tree[PathOf(a, d + 1) := f], free - {f}, a, d + 1, depth)
  {
    hide IsTree, LeafAt, LinksKept, Populated, Deepest, Index, IsEmpty, WordAt, IsFrame, TableEntry, SubTree;
    var p, i := PathOf(a, d), Index(a, d);
    DepthOfPath(a, d);
    Descend(mem, tree, a, d);
    HangTable(mem, tree, p, i, f);
    LinksAfterHang(mem0, tree0, mem, tree, p, i, f);
    GrownTablesByOne(mem0, tree0, free0, tree, free, a, d, depth, f);
  }

  lemma LinksAfterHang(mem0: Memory, tree0: Tree, mem: Memory, tree: Tree, p: Path, i: nat, f: Frame)
    requires LinksKept(mem0, tree0, mem, tree) && SubTree(tree0, tree) && Step(p, i) !in tree
    requires p in tree && tree[p] in mem && tree[p] != f && i < |mem[tree[p]]|
    requires LinksKept(mem, tree, Store(mem[f := EmptyTable()], tree[p], i, TableEntry(f)), tree[Step(p, i) := f])
    ensures LinksKept(mem0, tree0, Store(mem[f := EmptyTable()], tree[p], i, TableEntry(f)), tree[Step(p, i) := f])
  {
    hide LinksKept, TableEntry;
    LinksKeptTwice(mem0, tree0, mem, tree, Store(mem[f := EmptyTable()], tree[p], i, TableEntry(f)),
                   tree[Step(p, i) := f]);
  }

  /** The walk of `map` gets stuck only when the page cannot be mapped. */
  lemma GrowsNoFurther(mem0: Memory, tree0: Tree, free0: set<Frame>, mem: Memory, tree: Tree, free: set<Frame>,
                       a: bv64, d: nat, depth: nat)
    requires d < depth <= LAST && Shaped(mem0, tree0)
    requires Grown(mem0, tree0, free0, mem, tree, free, a, d, depth) && PathOf(a, d + 1) !in tree
    requires free == {} || !IsEmpty(WordAt(mem, tree, PathOf(a, d), Index(a, d)))
    ensures !MapPossible(mem0, tree0, free0, a, depth)
  {
    hide Deepest, Missing, Index, IsEmpty, WordAt, Separate, Linked, Pointed, IsTable, IsBlock, Pool, LinksKept;
    DeepestIsOnPath(mem0, tree0, a, depth);
    MissingTables(mem0, tree0, a, depth);
    Descend(mem, tree, a, d);
    var w := WordAt(mem, tree, PathOf(a, d), Index(a, d));
    if !IsEmpty(w) {
      assert LeafAt(mem, tree, PathOf(a, d + 1)) == w;
      assert LeafAt(mem0, tree0, PathOf(a, d + 1)) == w;
    }
  }

  /** The frames of tables and pool after `map`: all there, but for those of tables the entry led to. */
  ghost predicate FramesKept(tree0: Tree, free0: set<Frame>, tree: Tree, free: set<Frame>, slot: Path)
  {
    && Pool(tree, free)
    && free + tree.Values + FramesBelow(tree0, slot) == free0 + tree0.Values
    && (slot !in tree0 ==> SubTree(tree0, tree))
  }

  lemma MapFrames(mem0: Memory, tree0: Tree, free0: set<Frame>, mem: Memory, tree: Tree, free: set<Frame>, slot: Path)
    requires Shaped(mem0, tree0) && Shaped(mem, tree) && Separate(tree) && Pool(tree, free)
    requires SubTree(tree0, tree) && free + tree.Values == free0 + tree0.Values
    requires if slot in tree0 then tree == tree0 && free == free0 else slot !in tree
    ensures FramesKept(tree0, free0, Cut(tree, slot), free, slot)
  {
    hide IsFrame, Below, Depth, Shaped;
    FramesAfterCut(tree, slot);
    if slot !in tree0 {
      NothingToCut(mem, tree, slot);
      NothingToCut(mem0, tree0, slot);
    }
  }

  /** An entry of a last-level table leads to no tables, so a 4K page takes no frame away. */
  lemma SmallPageKeepsFrames(mem0: Memory, tree0: Tree, free0: set<Frame>, tree: Tree, free: set<Frame>, page: bv64)
    requires Shaped(mem0, tree0) && FramesKept(tree0, free0, tree, free, PathOf(page, LAST + 1))
    ensures free + tree.Values == free0 + tree0.Values && SubTree(tree0, tree)
  {
    hide Index, Pool, FramesBelow, PathOf;
    var slot := PathOf(page, LAST + 1);
    DepthOfPath(page, LAST + 1);
    NothingToCut(mem0, tree0, slot);
  }

  /** What `map` has done when it succeeds. */
  ghost predicate MapDone(mem0: Memory, tree0: Tree, free0: set<Frame>, mem: Memory, tree: Tree, free: set<Frame>,
                          page: bv64, depth: nat, w: bv64)
    requires depth <= LAST
  {
    && IsTree(mem, tree)
    && LeafWritten(mem0, tree0, mem, tree, PathOf(page, depth + 1), w)
    && PageWritten(mem0, tree0, mem, tree, page, depth, w)
    && LinksKept(mem0, tree0, mem, tree)
    && FramesKept(tree0, free0, tree, free, PathOf(page, depth + 1))
    && (Populated(mem0, tree0, Root) && !IsEmpty(w) ==> Populated(mem, tree, Root))
  }

  lemma MapFinishes(mem0: Memory, tree0: Tree, free0: set<Frame>, mem: Memory, tree: Tree, free: set<Frame>,
                    page: bv64, depth: nat, w: bv64, p: Path, i: nat, slot: Path)
    requires 0 < depth <= LAST && IsTree(mem0, tree0)
    requires p == PathOf(page, depth) && i == Index(page, depth) && slot == PathOf(page, depth + 1)
    requires Grown(mem0, tree0, free0, mem, tree, free, page, depth, depth) && IsLeaf(w, p)
    ensures p in tree && tree[p] in mem && |mem[tree[p]]| == ENTRIES
    ensures MapDone(mem0, tree0, free0, Store(mem, tree[p], i, w), Cut(tree, slot), free, page, depth, w)
  {
    hide IsTree, LeafAt, LinksKept, Populated, Index, Deepest, IsLeaf, IsEmpty, FramesBelow, Cut, PageWritten, Pool,
      NoLargerPage, SubTree, Below, FramesKept, GrownTables, PathOf;
    GrownFacts(mem0, tree0, free0, mem, tree, free, page, depth, slot);
    Descend(mem, tree, page, depth);
    WriteLeaf(mem, tree, p, i, w);
    MapFrames(mem0, tree0, free0, mem, tree, free, slot);
    var mem', tree' := Store(mem, tree[p], i, w), Cut(tree, slot);
    assert LeafWritten(mem0, tree0, mem', tree', slot, w);
    WrittenPage(mem0, tree0, mem', tree', page, depth, w);
    LinksAfterCut(mem0, tree0, mem, tree, mem', slot);
  }

  lemma LinksAfterCut(mem0: Memory, tree0: Tree, mem: Memory, tree: Tree, mem': Memory, slot: Path)
    requires LinksKept(mem0, tree0, mem, tree) && SubTree(tree0, tree) && LinksKept(mem, tree, mem', Cut(tree, slot))
    ensures LinksKept(mem0, tree0, mem', Cut(tree, slot))
  {
    hide LinksKept, Below;
    LinksKeptTwice(mem0, tree0, mem, tree, mem', Cut(tree, slot));
  }

  lemma GrownFacts(mem0: Memory, tree0: Tree, free0: set<Frame>, mem: Memory, tree: Tree, free: set<Frame>,
                   page: bv64, depth: nat, slot: Path)
    requires 0 < depth <= LAST && IsTree(mem0, tree0) && slot == PathOf(page, depth + 1)
    requires Grown(mem0, tree0, free0, mem, tree, free, page, depth, depth)
    ensures slot == Step(PathOf(page, depth), Index(page, depth)) && PathOf(page, depth) in tree
    ensures Shaped(mem0, tree0) && Shaped(mem, tree) && Separate(tree) && Pool(tree, free)
    ensures SubTree(tree0, tree) && free + tree.Values == free0 + tree0.Values
    ensures if slot in tree0 then tree == tree0 && free == free0 else slot !in tree
    ensures NoLargerPage(mem0, tree0, page, depth)
    ensures MapPossible(mem0, tree0, free0, page, depth)
  {
    hide Linked, Pointed, Sound, Populated, LeafAt, LinksKept, Index, IsEmpty, Deepest, Missing, Pool, SubTree;
    if slot in tree0 {
      OnPath(mem0, tree0, page, depth, depth + 1);
    }
    TableMeansNoLargerPage(mem, tree, page, depth);
    DeepestIsOnPath(mem0, tree0, page, depth);
    MissingTables(mem0, tree0, page, depth);
  }

  /** The entry `map` writes: the entry of a 4 KB page says that it is no block. */
  function EntryFor(frame: bv64, flags: bv64, depth: nat): bv64
  {
    Entry(frame, if depth == LAST then flags | SMALL_PAGE else flags)
  }

  /** Flags lie outside the address, and flags for a large page do not deny that it is a block. */
  predicate FlagsAllowed(flags: bv64, depth: nat)
  {
    AddressOf(flags) == 0 && (depth < LAST ==> flags & SMALL_PAGE == 0)
  }

  lemma SmallPageFlags(flags: bv64)
    requires AddressOf(flags) == 0
    ensures AddressOf(flags | SMALL_PAGE) == 0 && (flags | SMALL_PAGE) & SMALL_PAGE == SMALL_PAGE
  {
  }

  lemma EntryForPage(frame: bv64, flags: bv64, depth: nat)
    requires depth <= LAST && IsFrame(frame) && FlagsAllowed(flags, depth)
    ensures AddressOf(EntryFor(frame, flags, depth)) == frame
    ensures Flags(EntryFor(frame, flags, depth)) == if depth == LAST then flags | SMALL_PAGE else flags
    ensures depth < LAST ==> IsBlock(EntryFor(frame, flags, depth))
    ensures IsEmpty(EntryFor(frame, flags, depth)) <==> depth < LAST && frame == 0 && flags == 0
  {
    hide AddressOf, Flags, Entry;
    if depth == LAST {
      SmallPageFlags(flags);
      EntryRoundTrip(frame, flags | SMALL_PAGE, depth);
    } else {
      EntryRoundTrip(frame, flags, depth);
    }
  }

  /** The entry in memory for a page holds the frame and the flags that were asked for, and is present exactly
      when the flags say so. */
  ghost predicate EntryIs(mem: Memory, tree: Tree, page: bv64, depth: nat, frame: bv64, flags: bv64)
    requires depth <= LAST
  {
    var w := WordAt(mem, tree, PathOf(page, depth), Index(page, depth));
    && AddressOf(w) == frame
    && Flags(w) == (if depth == LAST then flags | SMALL_PAGE else flags)
    && (Present(w) <==> flags & PRESENT == PRESENT)
  }

  lemma SmallPagePresence(flags: bv64)
    ensures (flags | SMALL_PAGE) & PRESENT == flags & PRESENT
  {
  }

  lemma EntryHolds(mem: Memory, tree: Tree, page: bv64, depth: nat, frame: bv64, flags: bv64)
    requires depth <= LAST && IsFrame(frame) && FlagsAllowed(flags, depth)
    requires WordAt(mem, tree, PathOf(page, depth), Index(page, depth)) == EntryFor(frame, flags, depth)
    ensures EntryIs(mem, tree, page, depth, frame, flags)
  {
    hide WordAt, PathOf, Index, AddressOf, Flags, EntryFor, IsFrame, FlagsAllowed;
    EntryForPage(frame, flags, depth);
    SmallPagePresence(flags);
  }

  lemma {:induction false} StoredWord(mem: Memory, tree: Tree, p: Path, i: nat, slot: Path, w: bv64)
    requires p in tree && tree[p] in mem && i < |mem[tree[p]]| && slot == Step(p, i)
    ensures WordAt(Store(mem, tree[p], i, w), Cut(tree, slot), p, i) == w
  {
    if Below(p, slot) {
      BelowIsDeeper(p, slot);
    }
    assert p in Cut(tree, slot);
  }

  // ---- unmap ----

  /** An entry has been cleared, and of the tables above it those found empty have been taken out, up to the
      one at `p`, which may be empty now. */
  ghost predicate Unmapping(mem0: Memory, tree0: Tree, free0: set<Frame>, mem: Memory, tree: Tree, free: set<Frame>,
                            slot: Path, p: Path)
  {
    && IsTree(mem, tree) && Pool(tree, free) && p in tree && SubTree(tree, tree0)
    && free + tree.Values == free0 + tree0.Values
    && LeafWritten(mem0, tree0, mem, tree, slot, 0) && LinksKept(mem0, tree0, mem, tree)
    && (Populated(mem0, tree0, Root) ==> Populated(mem, tree, p))
  }

  lemma UnmapClears(mem: Memory, tree: Tree, free: set<Frame>, p: Path, i: nat)
    requires IsTree(mem, tree) && Pool(tree, free) && p in tree && i < ENTRIES && Step(p, i) !in tree
    ensures tree[p] in mem && |mem[tree[p]]| == ENTRIES
    ensures Unmapping(mem, tree, free, Store(mem, tree[p], i, 0), tree, free, Step(p, i), p)
  {
    hide Separate, Linked, Pointed, Sound, LeafWritten, LinksKept, Pool, Populated, FramesBelow, Cut, IsTable, IsBlock;
    EmptyEntry();
    WriteLeaf(mem, tree, p, i, 0);
    NothingToCut(mem, tree, Step(p, i));
  }

  lemma PoolAfterTakeOut(mem: Memory, tree: Tree, free: set<Frame>, q: Path)
    requires IsTree(mem, tree) && Pool(tree, free) && q in tree && q.Step?
    ensures Pool(tree - {q}, free + {tree[q]})
    ensures free + {tree[q]} + (tree - {q}).Values == free + tree.Values
  {
    hide Linked, Sound, IsFrame, WordAt, AddressOf;
    FramesAfterTakeOut(tree, q);
    AddressIsFrame(WordAt(mem, tree, q.parent, q.index));
    assert tree[q] in tree.Values;
  }

  lemma UnmapTakesOut(mem0: Memory, tree0: Tree, free0: set<Frame>, mem: Memory, tree: Tree, free: set<Frame>,
                      slot: Path, q: Path)
    requires Unmapping(mem0, tree0, free0, mem, tree, free, slot, q) && q.Step? && !HasEntry(mem, tree, q)
    ensures q.parent in tree && tree[q.parent] in mem && tree[q.parent] != tree[q] && q.index < |mem[tree[q.parent]]|
    ensures Unmapping(mem0, tree0, free0, Store(mem - {tree[q]}, tree[q.parent], q.index, 0), tree - {q},
                      free + {tree[q]}, slot, q.parent)
  {
    hide Separate, Linked, Pointed, Sound, LeafAt, LinksKept, Pool, Populated, HasEntry, Below;
    TakeOut(mem, tree, q);
    PoolAfterTakeOut(mem, tree, free, q);
    LinksKeptTwice(mem0, tree0, mem, tree, Store(mem - {tree[q]}, tree[q.parent], q.index, 0), tree - {q});
  }

  /** What `unmap` has done when it succeeds. */
  ghost predicate UnmapDone(mem0: Memory, tree0: Tree, free0: set<Frame>, mem: Memory, tree: Tree, free: set<Frame>,
                            page: bv64, depth: nat)
    requires depth <= LAST
  {
    && IsTree(mem, tree) && Pool(tree, free) && SubTree(tree, tree0)
    && free + tree.Values == free0 + tree0.Values
    && LeafWritten(mem0, tree0, mem, tree, PathOf(page, depth + 1), 0)
    && PageWritten(mem0, tree0, mem, tree, page, depth, 0)
    && LinksKept(mem0, tree0, mem, tree)
    && (Populated(mem0, tree0, Root) ==> Populated(mem, tree, Root))
  }

  lemma UnmapFinishes(mem0: Memory, tree0: Tree, free0: set<Frame>, mem: Memory, tree: Tree, free: set<Frame>,
                      page: bv64, depth: nat, n: nat)
    requires 0 < depth <= LAST && n <= LAST && PageWritten(mem0, tree0, mem, tree, page, depth, 0)
    requires Unmapping(mem0, tree0, free0, mem, tree, free, PathOf(page, depth + 1), PathOf(page, n))
    requires n == 0 || HasEntry(mem, tree, PathOf(page, n))
    ensures UnmapDone(mem0, tree0, free0, mem, tree, free, page, depth)
    ensures Populated(mem0, tree0, Root) ==> Populated(mem, tree, Root)
  {
    hide IsTree, LeafWritten, LinksKept, PageWritten, Pool, HasEntry, SubTree;
  }

  // ---- what map means for addresses, and that unmap undoes it ----

  lemma EntryIsThere(frame: bv64, flags: bv64, depth: nat)
    requires depth <= LAST && IsFrame(frame) && FlagsAllowed(flags, depth)
    ensures IsEmpty(EntryFor(frame, flags, depth)) <==> depth < LAST && frame == 0 && flags == 0
  {
    hide *;
    EntryForPage(frame, flags, depth);
  }

  lemma MappedAddress(mem0: Memory, tree0: Tree, free0: set<Frame>, mem: Memory, tree: Tree, free: set<Frame>,
                      page: bv64, depth: nat, frame: bv64, flags: bv64, a: bv64, mask: bv64)
    requires 0 < depth <= LAST && IsPage(page, depth) && IsFrame(frame) && FlagsAllowed(flags, depth)
    requires !IsEmpty(EntryFor(frame, flags, depth)) && IsVirtual(a) && mask == OffsetMask(depth)
    requires MapDone(mem0, tree0, free0, mem, tree, free, page, depth, EntryFor(frame, flags, depth))
    ensures LookupAt(mem, tree, a) ==
            if IsNear(a, page, mask) then Mapped(At(frame, Distance(a, page))) else LookupAt(mem0, tree0, a)
  {
    hide IsTree, LeafWritten, LinksKept, FramesKept, Populated, IsPage, IsFrame, IsVirtual, FlagsAllowed, EntryFor,
      IsNear, Distance, LookupAt, InPage, Offset, OffsetMask, AddressOf, IsEmpty, IsBlock, At;
    EntryForPage(frame, flags, depth);
    PageIsInterval(a, page, depth);
  }

  lemma DistanceIs(page: bv64, a: bv64, offset: bv64)
    requires offset == a - page
    ensures Distance(a, page) == offset
  {
  }

  lemma NearIs(page: bv64, a: bv64, mask: bv64)
    ensures IsNear(a, page, mask) <==> page <= a && a - page <= mask
  {
  }

  lemma AddressAt(frame: bv64, offset: bv64)
    ensures At(frame, offset) == frame + offset
  {
  }

  /** After `map`, the 48-bit addresses of the page are translated to the frame, offset by offset, and every
      other address as before. */
  lemma MapMeaning(mem0: Memory, tree0: Tree, free0: set<Frame>, mem: Memory, tree: Tree, free: set<Frame>,
                   page: bv64, depth: nat, frame: bv64, flags: bv64, a: bv64, mask: bv64, offset: bv64)
    requires 0 < depth <= LAST && IsPage(page, depth) && IsFrame(frame) && FlagsAllowed(flags, depth)
    requires (depth == LAST || frame != 0 || flags != 0) && IsVirtual(a) && mask == OffsetMask(depth) && offset == a - page
    requires MapDone(mem0, tree0, free0, mem, tree, free, page, depth, EntryFor(frame, flags, depth))
    ensures LookupAt(mem, tree, a) ==
            if page <= a && a - page <= mask then Mapped(frame + offset) else LookupAt(mem0, tree0, a)
  {
    hide *;
    EntryIsThere(frame, flags, depth);
    MappedAddress(mem0, tree0, free0, mem, tree, free, page, depth, frame, flags, a, mask);
    DistanceIs(page, a, offset);
    NearIs(page, a, mask);
    AddressAt(frame, offset);
  }

  lemma SamePageAs(a: bv64, page: bv64, start: bv64, depth: nat)
    requires InPage(page, start, depth)
    ensures InPage(a, start, depth) <==> InPage(a, page, depth)
  {
    hide PageOf;
  }

  lemma ClearedAddress(mem0: Memory, tree0: Tree, mem: Memory, tree: Tree, page: bv64, depth: nat, a: bv64)
    requires PageWritten(mem0, tree0, mem, tree, page, depth, 0)
    ensures LookupAt(mem, tree, a) == if InPage(a, page, depth) then Unmapped else LookupAt(mem0, tree0, a)
  {
    hide LookupAt, InPage, Target;
  }

  /** After `unmap`, the 48-bit addresses of the page found, the one from `start` that holds the given page, are
      translated to nothing, and every other address as before. */
  lemma UnmapMeaning(mem0: Memory, tree0: Tree, mem: Memory, tree: Tree, page: bv64, depth: nat, start: bv64, a: bv64,
                     mask: bv64)
    requires depth <= LAST && IsPage(start, depth) && IsVirtual(page) && IsVirtual(a) && mask == OffsetMask(depth)
    requires start <= page && page - start <= mask
    requires PageWritten(mem0, tree0, mem, tree, page, depth, 0)
    ensures LookupAt(mem, tree, a) == if start <= a && a - start <= mask then Unmapped else LookupAt(mem0, tree0, a)
  {
    hide IsPage, IsVirtual, LookupAt, InPage, Offset, OffsetMask, IsNear, Distance, PageWritten;
    NearIs(start, page, mask);
    NearIs(start, a, mask);
    PageIsInterval(page, start, depth);
    PageIsInterval(a, start, depth);
    SamePageAs(a, page, start, depth);
    ClearedAddress(mem0, tree0, mem, tree, page, depth, a);
  }

  /** After `map`, `unmap` at the same page finds the entry that was written. */
  lemma UnmapFindsMapped(mem0: Memory, tree0: Tree, free0: set<Frame>, mem: Memory, tree: Tree, free: set<Frame>,
                         page: bv64, depth: nat, w: bv64)
    requires 0 < depth <= LAST && !IsEmpty(w)
    requires MapDone(mem0, tree0, free0, mem, tree, free, page, depth, w)
    ensures Deepest(tree, page, LAST) == depth && UnmapPossible(mem, tree, page, depth)
  {
    hide Separate, Linked, Pointed, Sound, PageWritten, LinksKept, FramesKept, Populated, Index, Deepest;
    var slot := PathOf(page, depth + 1);
    assert LeafAt(mem, tree, slot) == w;
    assert PathOf(page, depth) in tree && slot !in tree;
    DeepestOnPath(mem, tree, page);
  }

  /** A page mapped in an empty tree is the last entry of its table: unmapping it as a large page would give the
      table back as one. */
  lemma LonePageIsLastEntry(mem0: Memory, tree0: Tree, free0: set<Frame>, mem: Memory, tree: Tree, free: set<Frame>,
                            page: bv64, depth: nat, w: bv64)
    requires 0 < depth <= LAST && !IsEmpty(w) && Populated(mem0, tree0, Root)
    requires forall s :: LeafAt(mem0, tree0, s) == 0
    requires MapDone(mem0, tree0, free0, mem, tree, free, page, depth, w)
    ensures IsLastEntry(mem, tree, page, depth)
  {
    hide Separate, Linked, Pointed, Sound, PageWritten, LinksKept, FramesKept, Populated, Index, IsEmpty;
    var p, i := PathOf(page, depth), Index(page, depth);
    EmptyEntry();
    forall j: nat | j != i
      ensures IsEmpty(WordAt(mem, tree, p, j))
    {
      var q := Step(p, j);
      if q in tree {
        var s := PageUnder(mem, tree, q);
        assert LeafAt(mem, tree, s) != 0;
        BelowStep(s.parent, p, j);
      } else {
        assert LeafAt(mem, tree, q) == WordAt(mem, tree, p, j);
      }
    }
  }

  /** When a page that was not mapped is mapped and unmapped, the tables are what they were, word for word. */
  lemma MapThenUnmap(mem0: Memory, tree0: Tree, free0: set<Frame>, mem1: Memory, tree1: Tree, free1: set<Frame>,
                     mem2: Memory, tree2: Tree, free2: set<Frame>, page: bv64, depth: nat, w: bv64)
    requires depth <= LAST && IsTree(mem0, tree0) && Pool(tree0, free0) && Populated(mem0, tree0, Root)
    requires PathOf(page, depth + 1) !in tree0 && IsEmpty(LeafAt(mem0, tree0, PathOf(page, depth + 1))) && !IsEmpty(w)
    requires MapDone(mem0, tree0, free0, mem1, tree1, free1, page, depth, w)
    requires UnmapDone(mem1, tree1, free1, mem2, tree2, free2, page, depth)
    ensures SameLeaves(mem0, tree0, mem2, tree2) && tree2 == tree0 && free2 == free0
    ensures forall p :: p in tree0 ==> tree0[p] in mem0 && tree0[p] in mem2 && mem2[tree0[p]] == mem0[tree0[p]]
  {
    hide Linked, Pointed, Sound, LeafAt, LinksKept, PageWritten, Pool, Populated, FramesBelow, PathOf, WordAt;
    var slot := PathOf(page, depth + 1);
    NoPagesInside(mem0, tree0, slot);
    NothingToCut(mem0, tree0, slot);
    assert SameLeaves(mem0, tree0, mem2, tree2);
    SamePagesSameTables(mem0, tree0, mem2, tree2);
    assert SubTree(tree0, tree1) && SubTree(tree2, tree1);
    assert tree2 == tree0;
    SamePool(tree0, free0, free2);
    LinksKeptTwice(mem0, tree0, mem1, tree1, mem2, tree2);
    SameWords(mem0, mem2, tree0);
  }

  lemma SameWords(mem: Memory, mem': Memory, tree: Tree)
    requires Shaped(mem, tree) && Shaped(mem', tree)
    requires SameLeaves(mem, tree, mem', tree) && LinksKept(mem, tree, mem', tree)
    ensures forall p :: p in tree ==> mem'[tree[p]] == mem[tree[p]]
  {
    forall p, i: nat | p in tree && i < ENTRIES
      ensures mem'[tree[p]][i] == mem[tree[p]][i]
    {
      var s := Step(p, i);
      assert LeafAt(mem', tree, s) == LeafAt(mem, tree, s);
      assert WordAt(mem', tree, p, i) == WordAt(mem, tree, p, i);
    }
  }

  lemma SamePool(tree: Tree, free: set<Frame>, free': set<Frame>)
    requires Pool(tree, free) && Pool(tree, free') && free + tree.Values == free' + tree.Values
    ensures free == free'
  {
    hide IsFrame;
    forall f
      ensures f in free <==> f in free'
    {
      assert f in free + tree.Values <==> f in free' + tree.Values;
    }
  }

  lemma NoPagesInside(mem: Memory, tree: Tree, slot: Path)
    requires Shaped(mem, tree) && slot !in tree
    ensures forall s :: Below(s, slot) && s != slot ==> LeafAt(mem, tree, s) == 0
  {
    forall s | Below(s, slot) && s != slot
      ensures LeafAt(mem, tree, s) == 0
    {
      if s.parent in tree {
        AncestorsInTree(mem, tree, s.parent, slot);
      }
    }
  }

  class PageTable {
    const root: Frame
    var mem: Memory
    var free: set<Frame>
    ghost var tree: Tree
    ghost var writes: seq<Write>

    ghost predicate Valid()
      reads this
    {
      && IsTree(mem, tree) && Root in tree && tree[Root] == root && Pool(tree, free)
      && Refines(mem, tree, writes)
    }

    /** Every table but the root has an entry. */
    ghost predicate Tidy()
      reads this
    {
      Populated(mem, tree, Root)
    }

    constructor (frame: Frame, frames: set<Frame>)
      requires frame !in frames && forall f :: f in frames ==> IsFrame(f.start)
      ensures Valid() && Tidy() && root == frame && free == frames && tree == map[Root := frame] && writes == []
    {
      root := frame;
      mem := map[frame := EmptyTable()];
      free := frames;
      tree := map[Root := frame];
      writes := [];
      new;
      EmptyEntry();
      assert forall i: nat :: WordAt(mem, tree, Root, i) == 0;
      NewTree(mem, tree, frame);
    }

    method GetNextTable(table: Frame, index: nat) returns (next: Option<Frame>)
      requires table in mem && index < |mem[table]|
      ensures next == if IsTable(mem[table][index]) then Some(FrameOf(mem[table][index])) else None
    {
      var entry := mem[table][index];
      if Present(entry) && !IsBlock(entry) {
        return Some(FrameOf(entry));
      } else {
        return None;
      }
    }

    method IsClear(table: Frame) returns (clear: bool)
      requires table in mem
      ensures clear <==> forall i :: 0 <= i < |mem[table]| ==> IsEmpty(mem[table][i])
    {
      var i := 0;
      while i < |mem[table]|
        invariant 0 <= i <= |mem[table]|
        invariant forall j :: 0 <= j < i ==> IsEmpty(mem[table][j])
      {
        if !IsEmpty(mem[table][i]) {
          return false;
        }
        i := i + 1;
      }
      return true;
    }

    /** The walk through memory finds what the plain map, and so the last write, says. */
    method Translate(a: bv64) returns (r: Lookup)
      requires Valid()
      ensures r == LookupAt(mem, tree, a) == Meaning(writes, a)
    {
      hide IsTree, Pool, IsEmpty, IsTable, IsBlock, FrameOf, Index, LookupAt, InPage, Target, WordAt;
      assert LookupAt(mem, tree, a) == Meaning(writes, a);
      // P4
      var table, index := root, Index(a, 0);
      Descend(mem, tree, a, 0);
      if IsEmpty(mem[table][index]) {
        WalkStops(mem, tree, a, 0);
        return Unmapped;
      }
      var next := GetNextTable(table, index);
      // P3
      table, index := next.value, Index(a, 1);
      Descend(mem, tree, a, 1);
      if IsEmpty(mem[table][index]) {
        WalkStops(mem, tree, a, 1);
        return Unmapped;
      }
      if IsBlock(mem[table][index]) {
        WalkStops(mem, tree, a, 1);
        return Mapped(Target(mem[table][index], a, 1));
      }
      next := GetNextTable(table, index);
      // P2
      table, index := next.value, Index(a, 2);
      Descend(mem, tree, a, 2);
      if IsEmpty(mem[table][index]) {
        WalkStops(mem, tree, a, 2);
        return Unmapped;
      }
      if IsBlock(mem[table][index]) {
        WalkStops(mem, tree, a, 2);
        return Mapped(Target(mem[table][index], a, 2));
      }
      next := GetNextTable(table, index);
      // P1
      table, index := next.value, Index(a, 3);
      Descend(mem, tree, a, 3);
      WalkStops(mem, tree, a, 3);
      if IsEmpty(mem[table][index]) {
        return Unmapped;
      } else {
        return Mapped(Target(mem[table][index], a, 3));
      }
    }

    /** The table an entry points to; if the entry is empty a new one is hung in. */
    method NextOrNewTable(table: Frame, index: nat, ghost a: bv64, ghost d: nat, ghost depth: nat,
                          ghost mem0: Memory, ghost tree0: Tree, ghost free0: set<Frame>)
        returns (next: Option<Frame>)
      requires d < depth <= LAST && IsTree(mem0, tree0) && Grown(mem0, tree0, free0, mem, tree, free, a, d, depth)
      requires PathOf(a, d) in tree && table == tree[PathOf(a, d)] && index == Index(a, d)
      modifies this`mem, this`free, this`tree
      ensures Grown(mem0, tree0, free0, mem, tree, free, a, if next.Some? then d + 1 else d, depth)
      ensures next.Some? ==> PathOf(a, d + 1) in tree && tree[PathOf(a, d + 1)] == next.value
      ensures next.None? ==> !MapPossible(mem0, tree0, free0, a, depth)
    {
      hide GrownTables, Separate, Linked, Pointed, Sound, SameLeaves, LinksKept, Populated, MapPossible, Pool,
        IsEmpty, Present, IsBlock, FrameOf, Index, WordAt, TableEntry;
      Descend(mem, tree, a, d);
      if IsEmpty(mem[table][index]) {
        if free == {} {
          GrowsNoFurther(mem0, tree0, free0, mem, tree, free, a, d, depth);
          return None;
        }
        var frame :| frame in free;
        GrowsByTable(mem0, tree0, free0, mem, tree, free, a, d, depth, frame);
        free := free - {frame};
        mem := mem[frame := EmptyTable()];
        mem := mem[table := mem[table][index := TableEntry(frame)]];
        tree := tree[PathOf(a, d + 1) := frame];
        Descend(mem, tree, a, d);
      } else if PathOf(a, d + 1) in tree {
        GrowsByNothing(mem0, tree0, free0, mem, tree, free, a, d, depth);
      } else {
        GrowsNoFurther(mem0, tree0, free0, mem, tree, free, a, d, depth);
      }
      next := GetNextTable(table, index);
    }

    /** Maps a page. It fails, where the source panics, exactly when the page is inside a larger one or the pool
        has no frames for the missing tables; then no address has changed its translation. */
    method Map(page: bv64, depth: nat, frame: bv64, flags: bv64) returns (ok: bool)
      requires Valid() && 0 < depth <= LAST && IsPage(page, depth)
      requires IsFrame(frame) && Offset(frame, OffsetMask(depth)) == 0 && FlagsAllowed(flags, depth)
      modifies this`mem, this`free, this`tree, this`writes
      ensures Valid()
      ensures ok <==> MapPossible(old(mem), old(tree), old(free), page, depth)
      ensures !ok ==> writes == old(writes)
      ensures ok ==> var w := EntryFor(frame, flags, depth);
                     && MapDone(old(mem), old(tree), old(free), mem, tree, free, page, depth, w)
                     && writes == old(writes) + [Write(page, depth, w)]
                     && (old(Tidy()) && !IsEmpty(w) ==> Tidy())
      ensures ok ==> EntryIs(mem, tree, page, depth, frame, flags)
      ensures ok && depth == LAST ==> free + tree.Values == old(free) + old(tree).Values
    {
      hide IsTree, Grown, MapPossible, MapDone, Pool, Refines, IsFrame, IsPage, Offset, Index, FlagsAllowed, EntryFor, IsLeaf,
        EntryIs, WordAt;
      ghost var mem0, tree0, free0 := mem, tree, free;
      EntryIsLeaf(frame, flags, depth, page);
      GrowsFromRoot(mem, tree, free, page, depth);
      var next := NextOrNewTable(root, Index(page, 0), page, 0, depth, mem0, tree0, free0);
      if next.None? {
        GrownIsValid(mem0, tree0, free0, mem, tree, free, page, 0, depth, writes);
        return false;
      }
      if depth == 1 {
        SetLeaf(next.value, page, depth, EntryFor(frame, flags, depth), mem0, tree0, free0);
        EntryHolds(mem, tree, page, depth, frame, flags);
        return true;
      }
      next := NextOrNewTable(next.value, Index(page, 1), page, 1, depth, mem0, tree0, free0);
      if next.None? {
        GrownIsValid(mem0, tree0, free0, mem, tree, free, page, 1, depth, writes);
        return false;
      }
      if depth == 2 {
        SetLeaf(next.value, page, depth, EntryFor(frame, flags, depth), mem0, tree0, free0);
        EntryHolds(mem, tree, page, depth, frame, flags);
        return true;
      }
      next := NextOrNewTable(next.value, Index(page, 2), page, 2, depth, mem0, tree0, free0);
      if next.None? {
        GrownIsValid(mem0, tree0, free0, mem, tree, free, page, 2, depth, writes);
        return false;
      }
      SetLeaf(next.value, page, depth, EntryFor(frame, flags, depth), mem0, tree0, free0);
      EntryHolds(mem, tree, page, depth, frame, flags);
      return true;
    }

    method SetLeaf(table: Frame, page: bv64, depth: nat, w: bv64,
                   ghost mem0: Memory, ghost tree0: Tree, ghost free0: set<Frame>)
      requires 0 < depth <= LAST && IsTree(mem0, tree0) && Refines(mem0, tree0, writes)
      requires Grown(mem0, tree0, free0, mem, tree, free, page, depth, depth) && IsLeaf(w, PathOf(page, depth))
      requires PathOf(page, depth) in tree && table == tree[PathOf(page, depth)]
      modifies this`mem, this`tree, this`writes
      ensures MapPossible(mem0, tree0, free0, page, depth)
      ensures MapDone(mem0, tree0, free0, mem, tree, free, page, depth, w)
      ensures WordAt(mem, tree, PathOf(page, depth), Index(page, depth)) == w
      ensures IsTree(mem, tree) && Pool(tree, free)
      ensures Populated(mem0, tree0, Root) && !IsEmpty(w) ==> Populated(mem, tree, Root)
      ensures depth == LAST ==> free + tree.Values == free0 + tree0.Values
      ensures Refines(mem, tree, writes) && writes == old(writes) + [Write(page, depth, w)]
      ensures Root in tree0 && Root in tree && tree[Root] == tree0[Root]
    {
      hide Grown, IsTree, MapPossible, MapDone, Pool, Refines, Index, IsLeaf, Cut, PathOf, WordAt;
      ghost var p, slot := PathOf(page, depth), PathOf(page, depth + 1);
      GrownFacts(mem0, tree0, free0, mem, tree, free, page, depth, slot);
      MapFinishes(mem0, tree0, free0, mem, tree, free, page, depth, w, p, Index(page, depth), slot);
      RootStays(mem0, tree0, mem, tree, slot);
      StoredWord(mem, tree, p, Index(page, depth), slot, w);
      mem := mem[table := mem[table][Index(page, depth) := w]];
      tree := Cut(tree, slot);
      MapDoneFacts(mem0, tree0, free0, mem, tree, free, page, depth, w, writes);
      writes := writes + [Write(page, depth, w)];
    }

    /** Clears the entry for an address in a table of depth `d`. */
    method ClearEntry(table: Frame, index: nat, ghost a: bv64, ghost d: nat)
      requires IsTree(mem, tree) && Pool(tree, free) && d <= LAST
      requires PathOf(a, d) in tree && PathOf(a, d + 1) !in tree
      requires table == tree[PathOf(a, d)] && index == Index(a, d)
      modifies this`mem
      ensures Unmapping(old(mem), tree, free, mem, tree, free, PathOf(a, d + 1), PathOf(a, d))
      ensures HasEntry(mem, tree, PathOf(a, d)) <==> !IsLastEntry(old(mem), tree, a, d)
    {
      hide IsTree, Pool, Unmapping, Index, HasEntry, IsLastEntry;
      UnmapClears(mem, tree, free, PathOf(a, d), index);
      LastEntryCleared(mem, tree, a, d);
      mem := mem[table := mem[table][index := 0]];
    }

    /** Gives back the table of depth `n` on the path of an address if it is empty, and clears the entry that
        leads to it. A table to be given back at the size of a large page is where the model stops. */
    method ReleaseIfClear(size: nat, table: Frame, parent: Frame, index: nat, ghost a: bv64, ghost n: nat,
                          ghost slot: Path, ghost mem0: Memory, ghost tree0: Tree, ghost free0: set<Frame>)
        returns (clear: bool)
      requires 0 < n <= LAST && Unmapping(mem0, tree0, free0, mem, tree, free, slot, PathOf(a, n))
      requires PathOf(a, n) in tree0 && table == tree0[PathOf(a, n)]
      requires PathOf(a, n - 1) in tree0 && parent == tree0[PathOf(a, n - 1)] && index == Index(a, n - 1)
      modifies this`mem, this`free, this`tree
      ensures clear <==> !old(HasEntry(mem, tree, PathOf(a, n)))
      ensures clear && size == LAST ==> Unmapping(mem0, tree0, free0, mem, tree, free, slot, PathOf(a, n - 1))
      ensures !clear || size < LAST ==> mem == old(mem) && tree == old(tree) && free == old(free)
      ensures !clear ==> HasEntry(mem, tree, PathOf(a, n))
    {
      hide Unmapping, HasEntry, Index, PathOf, IsEmpty;
      UnmappingFacts(mem0, tree0, free0, mem, tree, free, a, slot, n);
      clear := IsClear(table);
      if clear && size == LAST {
        ghost var q := PathOf(a, n);
        UnmapTakesOut(mem0, tree0, free0, mem, tree, free, slot, q);
        free := free + {table};
        mem := mem - {table};
        mem := mem[parent := mem[parent][index := 0]];
        tree := tree - {q};
      }
    }

    /** The last lines of `unmap`. The ghost result is the depth of the last table looked at. */
    method ReleaseP3(size: nat, p3: Frame, p4: Frame, i4: nat, ghost a: bv64, ghost slot: Path,
                     ghost mem0: Memory, ghost tree0: Tree, ghost free0: set<Frame>)
        returns (r: Removal, ghost n: nat)
      requires size <= LAST && OnPathOf(tree0, a, 1, p3) && OnPathOf(tree0, a, 0, p4) && i4 == Index(a, 0)
      requires Unmapping(mem0, tree0, free0, mem, tree, free, slot, PathOf(a, 1))
      modifies this`mem, this`free, this`tree
      ensures n <= LAST && Unmapping(mem0, tree0, free0, mem, tree, free, slot, PathOf(a, n))
      ensures r.WrongSize? <==> size < LAST && !old(HasEntry(mem, tree, PathOf(a, 1)))
      ensures r.WrongSize? ==> tree == old(tree) && free == old(free)
      ensures !r.WrongSize? ==> r.Done? && (n == 0 || HasEntry(mem, tree, PathOf(a, n)))
    {
      hide Unmapping, HasEntry, Index, PathOf;
      var clear := ReleaseIfClear(size, p3, p4, i4, a, 1, slot, mem0, tree0, free0);
      n := if clear && size == LAST then 0 else 1;
      r := if clear && size < LAST then WrongSize else Done;
    }

    method ReleaseP2(size: nat, p2: Frame, p3: Frame, i3: nat, p4: Frame, i4: nat, ghost a: bv64, ghost slot: Path,
                     ghost mem0: Memory, ghost tree0: Tree, ghost free0: set<Frame>)
        returns (r: Removal, ghost n: nat)
      requires size <= LAST && OnPathOf(tree0, a, 2, p2)
      requires OnPathOf(tree0, a, 1, p3) && i3 == Index(a, 1) && OnPathOf(tree0, a, 0, p4) && i4 == Index(a, 0)
      requires Unmapping(mem0, tree0, free0, mem, tree, free, slot, PathOf(a, 2))
      modifies this`mem, this`free, this`tree
      ensures n <= LAST && Unmapping(mem0, tree0, free0, mem, tree, free, slot, PathOf(a, n))
      ensures r.WrongSize? <==> size < LAST && !old(HasEntry(mem, tree, PathOf(a, 2)))
      ensures r.WrongSize? ==> tree == old(tree) && free == old(free)
      ensures !r.WrongSize? ==> r.Done? && (n == 0 || HasEntry(mem, tree, PathOf(a, n)))
    {
      hide Unmapping, HasEntry, Index, PathOf;
      var clear := ReleaseIfClear(size, p2, p3, i3, a, 2, slot, mem0, tree0, free0);
      if !clear || size < LAST {
        r, n := if clear then WrongSize else Done, 2;
      } else {
        r, n := ReleaseP3(size, p3, p4, i4, a, slot, mem0, tree0, free0);
      }
    }

    method ReleaseP1(size: nat, p1: Frame, p2: Frame, i2: nat, p3: Frame, i3: nat, p4: Frame, i4: nat,
                     ghost a: bv64, ghost slot: Path, ghost mem0: Memory, ghost tree0: Tree, ghost free0: set<Frame>)
        returns (r: Removal, ghost n: nat)
      requires size <= LAST && OnPathOf(tree0, a, 3, p1) && OnPathOf(tree0, a, 2, p2) && i2 == Index(a, 2)
      requires OnPathOf(tree0, a, 1, p3) && i3 == Index(a, 1) && OnPathOf(tree0, a, 0, p4) && i4 == Index(a, 0)
      requires Unmapping(mem0, tree0, free0, mem, tree, free, slot, PathOf(a, 3))
      modifies this`mem, this`free, this`tree
      ensures n <= LAST && Unmapping(mem0, tree0, free0, mem, tree, free, slot, PathOf(a, n))
      ensures r.WrongSize? <==> size < LAST && !old(HasEntry(mem, tree, PathOf(a, 3)))
      ensures r.WrongSize? ==> tree == old(tree) && free == old(free)
      ensures !r.WrongSize? ==> r.Done? && (n == 0 || HasEntry(mem, tree, PathOf(a, n)))
    {
      hide Unmapping, HasEntry, Index, PathOf;
      var clear := ReleaseIfClear(size, p1, p2, i2, a, 3, slot, mem0, tree0, free0);
      if !clear || size < LAST {
        r, n := if clear then WrongSize else Done, 3;
      } else {
        r, n := ReleaseP2(size, p2, p3, i3, p4, i4, a, slot, mem0, tree0, free0);
      }
    }

    /** Unmaps the page, of whatever size, that holds the start of the given one. Tables that become empty are
        given back at the size of the given page. Without an entry to clear nothing changes and the source
        panics. */
    method Unmap(page: bv64, size: nat) returns (r: Removal)
      requires Valid() && 0 < size <= LAST && IsPage(page, size)
      modifies this`mem, this`free, this`tree, this`writes
      ensures Valid()
      ensures var d := Deepest(old(tree), page, LAST);
              && (r.NoEntry? <==> !UnmapPossible(old(mem), old(tree), page, d))
              && (r.WrongSize? <==>
                    size < LAST && UnmapPossible(old(mem), old(tree), page, d) && IsLastEntry(old(mem), old(tree), page, d))
              && (!r.NoEntry? ==>
                    && d > 0 && PageWritten(old(mem), old(tree), mem, tree, page, d, 0)
                    && writes == old(writes) + [Write(page, d, 0)])
              && (r.Done? ==> d > 0 && UnmapDone(old(mem), old(tree), old(free), mem, tree, free, page, d))
      ensures r.Done? ==> free + tree.Values == old(free) + old(tree).Values && (old(Tidy()) ==> Tidy())
      ensures r.NoEntry? ==> mem == old(mem) && writes == old(writes)
      ensures !r.Done? ==> tree == old(tree) && free == old(free)
    {
      hide IsTree, Pool, Unmapping, UnmapDone, Refines, Index, HasEntry, IsEmpty, IsTable, IsBlock, FrameOf, IsPage,
        WordAt, PathOf, Deepest, IsLastEntry, PageWritten;
      ghost var mem0, tree0, free0 := mem, tree, free;
      var p4, i4 := root, Index(page, 0);
      DeepestOnPath(mem, tree, page);
      Descend(mem, tree, page, 0);
      if IsEmpty(mem[p4][i4]) {
        return NoEntry;
      }
      var next := GetNextTable(p4, i4);
      var p3, i3 := next.value, Index(page, 1);
      Descend(mem, tree, page, 1);
      if IsEmpty(mem[p3][i3]) {
        return NoEntry;
      }
      ghost var d, n := Deepest(tree, page, LAST), 0;
      ghost var slot := PathOf(page, d + 1);
      if IsBlock(mem[p3][i3]) {
        ClearEntry(p3, i3, page, 1);
        r, n := ReleaseP3(size, p3, p4, i4, page, slot, mem0, tree0, free0);
      } else {
        next := GetNextTable(p3, i3);
        var p2, i2 := next.value, Index(page, 2);
        Descend(mem, tree, page, 2);
        if IsEmpty(mem[p2][i2]) {
          return NoEntry;
        }
        if IsBlock(mem[p2][i2]) {
          ClearEntry(p2, i2, page, 2);
          r, n := ReleaseP2(size, p2, p3, i3, p4, i4, page, slot, mem0, tree0, free0);
        } else {
          next := GetNextTable(p2, i2);
          var p1, i1 := next.value, Index(page, 3);
          Descend(mem, tree, page, 3);
          ClearEntry(p1, i1, page, 3);
          r, n := ReleaseP1(size, p1, p2, i2, p3, i3, p4, i4, page, slot, mem0, tree0, free0);
        }
      }
      UnmapEnds(mem0, tree0, free0, mem, tree, free, page, d, n, writes, r.Done?);
      writes := writes + [Write(page, d, 0)];
    }
  }

  /** How `unmap` ends: done, panicking for want of an entry, or about to give a table back as a large page. */
  datatype Removal = Done | NoEntry | WrongSize

  ghost predicate OnPathOf(tree: Tree, a: bv64, n: nat, table: Frame)
    requires n <= LAST
  {
    PathOf(a, n) in tree && tree[PathOf(a, n)] == table
  }

  /** The table for an address at depth `d` has no entry but the one for the address. */
  ghost predicate IsLastEntry(mem: Memory, tree: Tree, a: bv64, d: nat)
    requires d <= LAST
  {
    forall j: nat :: j != Index(a, d) ==> IsEmpty(WordAt(mem, tree, PathOf(a, d), j))
  }

  lemma LastEntryCleared(mem: Memory, tree: Tree, a: bv64, d: nat)
    requires IsTree(mem, tree) && d <= LAST && PathOf(a, d) in tree
    ensures tree[PathOf(a, d)] in mem && |mem[tree[PathOf(a, d)]]| == ENTRIES
    ensures HasEntry(Store(mem, tree[PathOf(a, d)], Index(a, d), 0), tree, PathOf(a, d)) <==>
            !IsLastEntry(mem, tree, a, d)
  {
    hide Linked, Pointed, Sound, Index, PathOf, IsEmpty;
    var p, i := PathOf(a, d), Index(a, d);
    var mem' := Store(mem, tree[p], i, 0);
    EmptyEntry();
    forall j: nat
      ensures WordAt(mem', tree, p, j) == if j == i then 0 else WordAt(mem, tree, p, j)
    {
      WordAfterStore(mem, tree, p, i, 0, p, j);
    }
  }

  lemma UnmappingFacts(mem0: Memory, tree0: Tree, free0: set<Frame>, mem: Memory, tree: Tree, free: set<Frame>,
                       page: bv64, slot: Path, n: nat)
    requires 0 < n <= LAST && Unmapping(mem0, tree0, free0, mem, tree, free, slot, PathOf(page, n))
    requires PathOf(page, n) in tree0 && PathOf(page, n - 1) in tree0
    ensures var p := PathOf(page, n);
            && p in tree && tree[p] == tree0[p] && tree[p] in mem
            && p == Step(PathOf(page, n - 1), Index(page, n - 1))
            && p.parent in tree && tree[p.parent] == tree0[p.parent]
            && ((forall i :: 0 <= i < |mem[tree[p]]| ==> IsEmpty(mem[tree[p]][i])) <==> !HasEntry(mem, tree, p))
  {
    hide Separate, Linked, Pointed, Sound, Pool, LeafAt, LinksKept, Populated, Index, IsEmpty;
    var p := PathOf(page, n);
    EmptyEntry();
    if !HasEntry(mem, tree, p) {
      forall i | 0 <= i < |mem[tree[p]]|
        ensures IsEmpty(mem[tree[p]][i])
      {
        assert IsEmpty(WordAt(mem, tree, p, i));
      }
    }
  }

  lemma UnmapEnds(mem0: Memory, tree0: Tree, free0: set<Frame>, mem: Memory, tree: Tree, free: set<Frame>,
                  page: bv64, d: nat, n: nat, writes: seq<Write>, done: bool)
    requires 0 < d <= LAST && n <= LAST && IsTree(mem0, tree0) && Refines(mem0, tree0, writes)
    requires PathOf(page, d) in tree0
    requires Unmapping(mem0, tree0, free0, mem, tree, free, PathOf(page, d + 1), PathOf(page, n))
    requires done ==> n == 0 || HasEntry(mem, tree, PathOf(page, n))
    ensures PageWritten(mem0, tree0, mem, tree, page, d, 0)
    ensures done ==> UnmapDone(mem0, tree0, free0, mem, tree, free, page, d)
    ensures free + tree.Values == free0 + tree0.Values
    ensures done && Populated(mem0, tree0, Root) ==> Populated(mem, tree, Root)
    ensures IsTree(mem, tree) && Pool(tree, free) && Refines(mem, tree, writes + [Write(page, d, 0)])
    ensures Root in tree && Root in tree0 && tree[Root] == tree0[Root]
  {
    hide Separate, Linked, Pointed, Sound, Pool, Refines, LeafWritten, LinksKept, PageWritten, HasEntry, PathOf,
      NoLargerPage, UnmapDone;
    TableMeansNoLargerPage(mem0, tree0, page, d);
    WrittenPage(mem0, tree0, mem, tree, page, d, 0);
    WriteRefines(mem0, tree0, mem, tree, writes, Write(page, d, 0));
    if done {
      UnmapFinishes(mem0, tree0, free0, mem, tree, free, page, d, n);
    }
  }

  /** There is an entry to clear: any in a table of the last level, a block above. */
  predicate UnmapPossible(mem: Memory, tree: Tree, page: bv64, d: nat)
    requires d <= LAST
  {
    d == LAST || (0 < d && !IsEmpty(WordAt(mem, tree, PathOf(page, d), Index(page, d))))
  }

  lemma DeepestOnPath(mem: Memory, tree: Tree, a: bv64)
    requires IsTree(mem, tree)
    ensures Deepest(tree, a, LAST) <= LAST
    ensures forall m: nat :: m <= LAST ==> (PathOf(a, m) in tree <==> m <= Deepest(tree, a, LAST))
    ensures PathOf(a, 0) == Root
  {
    DeepestIsOnPath(mem, tree, a, LAST);
  }

  lemma RootStays(mem0: Memory, tree0: Tree, mem: Memory, tree: Tree, slot: Path)
    requires Shaped(mem0, tree0) && Shaped(mem, tree) && SubTree(tree0, tree) && slot.Step?
    ensures Root in tree0 && Root in Cut(tree, slot) && Cut(tree, slot)[Root] == tree0[Root]
  {
    assert !Below(Root, slot);
  }

  lemma MapDoneFacts(mem0: Memory, tree0: Tree, free0: set<Frame>, mem: Memory, tree: Tree, free: set<Frame>,
                     page: bv64, depth: nat, w: bv64, writes: seq<Write>)
    requires depth <= LAST && IsTree(mem0, tree0) && MapDone(mem0, tree0, free0, mem, tree, free, page, depth, w)
    requires Refines(mem0, tree0, writes)
    ensures IsTree(mem, tree) && Pool(tree, free) && Refines(mem, tree, writes + [Write(page, depth, w)])
    ensures Populated(mem0, tree0, Root) && !IsEmpty(w) ==> Populated(mem, tree, Root)
    ensures depth == LAST ==> free + tree.Values == free0 + tree0.Values
  {
    hide IsTree, Pool, Refines, LeafWritten, LinksKept, PageWritten, FramesBelow, SubTree, Populated, IsEmpty, PathOf;
    if depth == LAST {
      HasShape(mem0, tree0);
      SmallPageKeepsFrames(mem0, tree0, free0, tree, free, page);
    }
    WriteRefines(mem0, tree0, mem, tree, writes, Write(page, depth, w));
  }

  lemma HasShape(mem: Memory, tree: Tree)
    requires IsTree(mem, tree)
    ensures Shaped(mem, tree)
  {
  }

  lemma EntryIsLeaf(frame: bv64, flags: bv64, depth: nat, page: bv64)
    requires 0 < depth <= LAST && IsFrame(frame) && FlagsAllowed(flags, depth)
    ensures IsLeaf(EntryFor(frame, flags, depth), PathOf(page, depth))
  {
    hide IsFrame, FlagsAllowed, EntryFor, Index, Present, IsBlock;
    EntryForPage(frame, flags, depth);
    DepthOfPath(page, depth);
  }

  lemma NewTree(mem: Memory, tree: Tree, frame: Frame)
    requires tree == map[Root := frame] && frame in mem && mem[frame] == EmptyTable()
    ensures IsTree(mem, tree) && Populated(mem, tree, Root) && Refines(mem, tree, [])
  {
    hide IsTable, IsBlock, FrameOf;
    EmptyEntry();
    assert forall p, i: nat :: WordAt(mem, tree, p, i) == 0;
    forall a
      ensures LookupAt(mem, tree, a) == Unmapped
    {
    }
  }

  lemma GrownIsValid(mem0: Memory, tree0: Tree, free0: set<Frame>, mem: Memory, tree: Tree, free: set<Frame>,
                     a: bv64, d: nat, depth: nat, writes: seq<Write>)
    requires d <= depth <= LAST && Grown(mem0, tree0, free0, mem, tree, free, a, d, depth)
    requires Refines(mem0, tree0, writes) && Root in tree0
    ensures IsTree(mem, tree) && Pool(tree, free) && Root in tree && tree[Root] == tree0[Root]
    ensures Refines(mem, tree, writes)
  {
    hide IsTree, Pool, SameLeaves, LinksKept, Populated, LookupAt, Meaning, Deepest;
    SameLeavesSameLookup(mem0, tree0, mem, tree);
  }
}
