/**
 Teardown of the user part of an address space: the recursive walk that gives back every page and every
 table below the entries of the kernel.

 A released frame leaves memory, so that no table can be read after it has been given back. What has been
 released is kept by the path of the entry that owned it, and no path can be released twice.
 */
module UserTeardown {
  import opened PageTableEntry
  import opened PageTree
  import B = Bits
  import L = SizeClassLists
  import P = PhysicalPageResource

  const KERNEL_START: bv64 := 0xff00_0000_0000

  /** A frame given back, with the depth that tells its size. */
  datatype Release = Release(frame: Frame, depth: nat)

  /** What has been given back, by the path of the entry that owned it. */
  type Releases = map<Path, Release>

  /** `s` lies under one of the first `i` entries of the table at `p`. */
  predicate Under(s: Path, p: Path, i: nat)
  {
    s.Step? && ((s.parent == p && s.index < i) || Under(s.parent, p, i))
  }

  /** The number of entries of a table that teardown visits. */
  function Bound(p: Path): nat
  {
    if p == Root then Index(KERNEL_START, 0) else ENTRIES
  }

  /** The part of the address space that teardown visits. */
  predicate IsUser(s: Path)
  {
    s == Root || Under(s, Root, Bound(Root))
  }

  /** There is something to release at the path: a table, or a page that is present. */
  predicate Releasable(mem: Memory, tree: Tree, s: Path)
  {
    s in tree || Present(LeafAt(mem, tree, s))
  }

  /** A table is released as a 4 KB frame, a page at the size of its entry. */
  function ReleaseAt(mem: Memory, tree: Tree, s: Path): Release
  {
    if s in tree then Release(tree[s], LAST)
    else Release(FrameOf(LeafAt(mem, tree, s)), if s.Step? then Depth(s.parent) else 0)
  }

  /** The frame lies in the block of memory that is released. */
  predicate Covers(r: Release, f: Frame)
  {
    InPage(f.start, r.frame.start, r.depth)
  }

  /** The frames of tables are frames, and no page of the user lies over one. */
  ghost predicate Owned(mem: Memory, tree: Tree)
  {
    && (forall q :: q in tree ==> IsFrame(tree[q].start))
    && (forall s, q :: IsPageOf(mem, tree, s) && q in tree ==> !Covers(ReleaseAt(mem, tree, s), tree[q]))
  }

  /** A page of the user that is present. */
  predicate IsPageOf(mem: Memory, tree: Tree, s: Path)
  {
    s !in tree && IsUser(s) && Releasable(mem, tree, s)
  }

  lemma KernelIndex()
    ensures Index(KERNEL_START, 0) == 510
  {
    assert IndexBits(KERNEL_START, 0) == 510;
  }

  // ---- paths ----

  lemma {:induction false} UnderIsBelow(s: Path, p: Path, i: nat)
    requires Under(s, p, i)
    ensures Below(s, p) && Depth(p) < Depth(s) && s != p
  {
    assert Depth(s) == Depth(s.parent) + 1;
    if !(s.parent == p && s.index < i) {
      UnderIsBelow(s.parent, p, i);
    }
  }

  /** Under the first `i + 1` entries is under the first `i`, or at or below the next. */
  lemma {:induction false} UnderNext(s: Path, p: Path, i: nat)
    ensures Under(s, p, i + 1) <==> Under(s, p, i) || Below(s, Step(p, i))
  {
    if s.Step? {
      UnderNext(s.parent, p, i);
    }
  }

  /** Paths at or below an entry are not under an earlier one. */
  lemma {:induction false} NotUnderEarlier(s: Path, p: Path, i: nat)
    requires Below(s, Step(p, i))
    ensures !Under(s, p, i)
  {
    BelowIsDeeper(s, Step(p, i));
    if s != Step(p, i) {
      NotUnderEarlier(s.parent, p, i);
    } else if Under(p, p, i) {
      UnderIsBelow(p, p, i);
    }
  }

  /** In the tree, what is at or below a table is the table or under one of its entries. */
  lemma {:induction false} BelowIsUnder(mem: Memory, tree: Tree, s: Path, p: Path)
    requires Shaped(mem, tree) && Releasable(mem, tree, s)
    ensures Below(s, p) <==> s == p || Under(s, p, ENTRIES)
  {
    hide Present;
    EmptyEntry();
    NotPresent();
    if Under(s, p, ENTRIES) {
      UnderIsBelow(s, p, ENTRIES);
    }
    if s.Step? && s != p {
      assert s.parent in tree && s.index < ENTRIES;
      BelowIsUnder(mem, tree, s.parent, p);
    }
  }

  lemma NotPresent()
    ensures !Present(0)
  {
  }

  // ---- the effect of releasing a part of the tree ----

  ghost predicate Alive(mem0: Memory, tree: Tree, mem: Memory, q: Path)
    requires q in tree
  {
    tree[q] in mem && tree[q] in mem0 && mem[tree[q]] == mem0[tree[q]]
  }

  /** Of a part of the address space everything has been released: its tables are gone, all others are
      untouched, and beside what had been released it is exactly this part that has been, as it should. */
  ghost predicate Gone(mem0: Memory, tree: Tree, mem: Memory, released: Releases,
                       mem': Memory, released': Releases, part: iset<Path>)
  {
    && mem'.Keys <= mem.Keys
    && (forall q :: q in tree && q in part ==> tree[q] !in mem')
    && (forall q :: q in tree && q !in part && Alive(mem0, tree, mem, q) ==> Alive(mem0, tree, mem', q))
    && (forall s :: s in released' <==> s in released || (s in part && Releasable(mem0, tree, s)))
    && (forall s :: s in released ==> s in released' && released'[s] == released[s])
    && (forall s :: s in part && s !in released && Releasable(mem0, tree, s) ==>
          s in released' && released'[s] == ReleaseAt(mem0, tree, s))
  }

  ghost function First(p: Path, i: nat): iset<Path>
  {
    iset s | Under(s, p, i)
  }

  ghost function Visited(p: Path): iset<Path>
  {
    iset s | s == p || Under(s, p, Bound(p))
  }

  lemma GoneNothing(mem0: Memory, tree: Tree, mem: Memory, released: Releases, p: Path)
    ensures Gone(mem0, tree, mem, released, mem, released, First(p, 0))
  {
    forall s
      ensures !Under(s, p, 0)
    {
      UnderNone(s, p);
    }
  }

  lemma {:induction false} UnderNone(s: Path, p: Path)
    ensures !Under(s, p, 0)
  {
    if s.Step? {
      UnderNone(s.parent, p);
    }
  }

  lemma GoneThen(mem0: Memory, tree: Tree, mem1: Memory, rel1: Releases, mem2: Memory, rel2: Releases,
                 mem3: Memory, rel3: Releases, part: iset<Path>, next: iset<Path>, both: iset<Path>)
    requires Gone(mem0, tree, mem1, rel1, mem2, rel2, part) && Gone(mem0, tree, mem2, rel2, mem3, rel3, next)
    requires forall s :: Releasable(mem0, tree, s) ==> (s in both <==> s in part || s in next)
    ensures Gone(mem0, tree, mem1, rel1, mem3, rel3, both)
  {
    hide ReleaseAt, Alive;
    assert forall q :: q in tree ==> Releasable(mem0, tree, q);
  }

  // ---- releasing one frame ----

  function Without(mem: Memory, r: Release): Memory
  {
    map f | f in mem && !Covers(r, f) :: mem[f]
  }

  lemma SameFrame(x: bv64, y: bv64)
    requires IsFrame(x) && IsFrame(y)
    ensures InPage(x, y, LAST) <==> x == y
  {
    if InPage(x, y, LAST) {
      assert L1Page(x) == L1Page(y);
      assert AddressOf(x) == L1Page(x) && AddressOf(y) == L1Page(y);
    }
  }

  lemma TablesCovered(mem0: Memory, tree: Tree, s: Path, q: Path)
    requires Separate(tree) && Owned(mem0, tree) && IsUser(s) && Releasable(mem0, tree, s) && q in tree
    ensures Covers(ReleaseAt(mem0, tree, s), tree[q]) <==> q == s
  {
    hide InPage, IsFrame, Present, LeafAt, FrameOf, IsUser;
    if s in tree {
      SameFrame(tree[q].start, tree[s].start);
    } else {
      assert IsPageOf(mem0, tree, s);
    }
  }

  lemma ReleaseOne(mem0: Memory, tree: Tree, mem: Memory, released: Releases, s: Path)
    requires Separate(tree) && Owned(mem0, tree) && IsUser(s) && Releasable(mem0, tree, s) && s !in released
    ensures Gone(mem0, tree, mem, released, Without(mem, ReleaseAt(mem0, tree, s)),
                 released[s := ReleaseAt(mem0, tree, s)], iset{s})
  {
    hide Owned, Covers, Releasable, ReleaseAt, Separate, IsUser;
    forall q | q in tree
      ensures Covers(ReleaseAt(mem0, tree, s), tree[q]) <==> q == s
    {
      TablesCovered(mem0, tree, s, q);
    }
  }

  // ---- one entry of a table ----

  /** Below an entry that leads to no table there is nothing but the page it maps. */
  lemma OnlyPageBelow(mem: Memory, tree: Tree, s: Path, c: Path)
    requires Shaped(mem, tree) && c !in tree && Releasable(mem, tree, s) && Below(s, c)
    ensures s == c
  {
    hide Present, IsEmpty;
    NotPresent();
    if s != c {
      assert s.parent in tree;
      AncestorsInTree(mem, tree, s.parent, c);
    }
  }

  /** The part under the first entries grows by what is at or below the next. */
  lemma NextPart(mem: Memory, tree: Tree, p: Path, i: nat, next: iset<Path>)
    requires forall s :: Releasable(mem, tree, s) ==> (s in next <==> Below(s, Step(p, i)))
    ensures forall s :: Releasable(mem, tree, s) ==> (s in First(p, i + 1) <==> s in First(p, i) || s in next)
  {
    hide Releasable;
    forall s
      ensures Under(s, p, i + 1) <==> Under(s, p, i) || Below(s, Step(p, i))
    {
      UnderNext(s, p, i);
    }
  }

  lemma PagePart(mem: Memory, tree: Tree, c: Path)
    requires Shaped(mem, tree) && c !in tree
    ensures forall s :: Releasable(mem, tree, s) ==> (Below(s, c) <==> s == c)
  {
    hide Releasable;
    forall s | Releasable(mem, tree, s) && Below(s, c)
      ensures s == c
    {
      OnlyPageBelow(mem, tree, s, c);
    }
  }

  lemma TablePart(mem: Memory, tree: Tree, c: Path)
    requires Shaped(mem, tree) && c != Root
    ensures forall s :: Releasable(mem, tree, s) ==> (s in Visited(c) <==> Below(s, c))
  {
    hide Releasable, Index;
    forall s | Releasable(mem, tree, s)
      ensures Below(s, c) <==> s == c || Under(s, c, ENTRIES)
    {
      BelowIsUnder(mem, tree, s, c);
    }
  }

  /** What lies at or below the next entry has not been visited. */
  lemma NextIsFresh(mem0: Memory, tree: Tree, mem: Memory, released: Releases,
                    mem': Memory, released': Releases, p: Path, i: nat)
    requires i < Bound(p) && Gone(mem0, tree, mem, released, mem', released', First(p, i))
    requires forall q :: q in tree && q in Visited(p) ==> Alive(mem0, tree, mem, q)
    requires forall s :: s in released ==> s !in Visited(p)
    ensures forall s :: Below(s, Step(p, i)) ==> s in Visited(p) && s !in released'
    ensures Step(p, i) !in released'
    ensures forall q :: q in tree && (q == p || Below(q, Step(p, i))) ==> Alive(mem0, tree, mem', q)
  {
    hide Alive, Releasable, ReleaseAt, Index;
    forall s | Below(s, Step(p, i))
      ensures Under(s, p, Bound(p)) && !Under(s, p, i)
    {
      NotUnderEarlier(s, p, i);
      UnderNext(s, p, i);
      UnderMore(s, p, i + 1, Bound(p));
    }
    assert Below(Step(p, i), Step(p, i));
    if Under(p, p, i) {
      UnderIsBelow(p, p, i);
    }
  }

  lemma {:induction false} UnderMore(s: Path, p: Path, i: nat, j: nat)
    requires Under(s, p, i) && i <= j
    ensures Under(s, p, j)
  {
    if !(s.parent == p && s.index < i) {
      UnderMore(s.parent, p, i, j);
    }
  }

  /** What the word of an entry says of the path of the entry. */
  lemma EntryFacts(mem0: Memory, tree: Tree, mem: Memory, p: Path, i: nat)
    requires IsTree(mem0, tree) && p in tree && i < ENTRIES && Alive(mem0, tree, mem, p)
    ensures Depth(p) <= LAST && tree[p] in mem && i < |mem[tree[p]]|
    ensures var w, c := mem[tree[p]][i], Step(p, i);
            && (Depth(p) == LAST || !IsTable(w) ==> c !in tree)
            && (Depth(p) < LAST && IsTable(w) ==> c in tree && tree[c] == FrameOf(w) && Depth(c) == Depth(p) + 1)
            && (c !in tree ==> LeafAt(mem0, tree, c) == w && (Releasable(mem0, tree, c) <==> Present(w))
                               && ReleaseAt(mem0, tree, c) == Release(FrameOf(w), Depth(p)))
            && (!IsEmpty(w) && IsBlock(w) ==> p != Root)
            && (IsEmpty(w) ==> !Present(w))
            && (IsTable(w) <==> Present(w) && !IsBlock(w))
  {
    hide Separate, Present, IsBlock, FrameOf;
    NotPresent();
    var w, c := mem[tree[p]][i], Step(p, i);
    assert w == WordAt(mem0, tree, p, i);
    assert Depth(c) == Depth(p) + 1;
  }

  lemma EntrySkipped(mem0: Memory, tree: Tree, mem1: Memory, rel1: Releases,
                     mem2: Memory, rel2: Releases, p: Path, i: nat)
    requires IsTree(mem0, tree) && Step(p, i) !in tree && !Releasable(mem0, tree, Step(p, i))
    requires Gone(mem0, tree, mem1, rel1, mem2, rel2, First(p, i))
    ensures Gone(mem0, tree, mem1, rel1, mem2, rel2, First(p, i + 1))
  {
    hide Separate, Linked, Pointed, Sound, First, Alive, Releasable, ReleaseAt, Below;
    PagePart(mem0, tree, Step(p, i));
    NextPart(mem0, tree, p, i, iset{});
    GoneThen(mem0, tree, mem1, rel1, mem2, rel2, mem2, rel2, First(p, i), iset{}, First(p, i + 1));
  }

  lemma PageReleased(mem0: Memory, tree: Tree, mem1: Memory, rel1: Releases,
                     mem2: Memory, rel2: Releases, p: Path, i: nat, r: Release)
    requires IsTree(mem0, tree) && Owned(mem0, tree) && IsPageOf(mem0, tree, Step(p, i))
    requires Step(p, i) !in rel2 && r == ReleaseAt(mem0, tree, Step(p, i))
    requires Gone(mem0, tree, mem1, rel1, mem2, rel2, First(p, i))
    ensures Gone(mem0, tree, mem1, rel1, Without(mem2, r), rel2[Step(p, i) := r], First(p, i + 1))
  {
    hide Separate, Linked, Pointed, Sound, First, Gone, Releasable, ReleaseAt, Below, Owned, Without, IsUser;
    var c := Step(p, i);
    PagePart(mem0, tree, c);
    NextPart(mem0, tree, p, i, iset{c});
    ReleaseOne(mem0, tree, mem2, rel2, c);
    GoneThen(mem0, tree, mem1, rel1, mem2, rel2, Without(mem2, r), rel2[c := r], First(p, i), iset{c}, First(p, i + 1));
  }

  lemma TableReleased(mem0: Memory, tree: Tree, mem1: Memory, rel1: Releases,
                      mem2: Memory, rel2: Releases, mem3: Memory, rel3: Releases, p: Path, i: nat)
    requires IsTree(mem0, tree)
    requires Gone(mem0, tree, mem1, rel1, mem2, rel2, First(p, i))
    requires Gone(mem0, tree, mem2, rel2, mem3, rel3, Visited(Step(p, i)))
    ensures Gone(mem0, tree, mem1, rel1, mem3, rel3, First(p, i + 1))
  {
    hide Separate, Linked, Pointed, Sound, First, Visited, Gone, Releasable, Below;
    var c := Step(p, i);
    TablePart(mem0, tree, c);
    NextPart(mem0, tree, p, i, Visited(c));
    GoneThen(mem0, tree, mem1, rel1, mem2, rel2, mem3, rel3, First(p, i), Visited(c), First(p, i + 1));
  }

  /** A table below the next entry is as it was, and nothing of it has been released. */
  lemma ChildIsFresh(mem0: Memory, tree: Tree, mem: Memory, released: Releases, c: Path)
    requires forall s :: Below(s, c) ==> s !in released
    requires forall q :: q in tree && Below(q, c) ==> Alive(mem0, tree, mem, q)
    ensures forall q :: q in tree && q in Visited(c) ==> Alive(mem0, tree, mem, q)
    ensures forall s :: s in released ==> s !in Visited(c)
  {
    hide Alive, Index;
    forall s | s in Visited(c)
      ensures Below(s, c)
    {
      if s != c {
        UnderIsBelow(s, c, Bound(c));
      }
    }
  }

  /** At last the table itself. */
  lemma LastReleased(mem0: Memory, tree: Tree, mem1: Memory, rel1: Releases,
                     mem2: Memory, rel2: Releases, p: Path)
    requires IsTree(mem0, tree) && Owned(mem0, tree) && p in tree && IsUser(p)
    requires Gone(mem0, tree, mem1, rel1, mem2, rel2, First(p, Bound(p)))
    requires forall s :: s in rel1 ==> s !in Visited(p)
    ensures p !in rel2
    ensures Gone(mem0, tree, mem1, rel1, Without(mem2, Release(tree[p], LAST)), rel2[p := Release(tree[p], LAST)], Visited(p))
  {
    hide Separate, Linked, Pointed, Sound, Owned, Without, Alive, Bound, IsUser;
    if Under(p, p, Bound(p)) {
      UnderIsBelow(p, p, Bound(p));
    }
    assert p in Visited(p);
    var r := Release(tree[p], LAST);
    assert r == ReleaseAt(mem0, tree, p);
    ReleaseOne(mem0, tree, mem2, rel2, p);
    GoneThen(mem0, tree, mem1, rel1, mem2, rel2, Without(mem2, r), rel2[p := r], First(p, Bound(p)), iset{p}, Visited(p));
  }

  // ---- the physical page resource ----

  function SizeOf(depth: nat): P.PageSize
  {
    match depth
    case 1 => P.Size1G
    case 2 => P.Size2M
    case _ => P.Size4K
  }

  /** The cell of the physical page resource that a release gives back. */
  function CellFor(log: nat, r: Release): L.Cell
  {
    var bytes := SizeOf(r.depth).LogBytes();
    L.Cell(r.frame.start as nat, if bytes >= log then bytes - log else 0)
  }

  /** The three page sizes are those of the translation tables. */
  lemma SizesOfPages(depth: nat)
    requires 1 <= depth <= LAST
    ensures B.Pow2(SizeOf(depth).LogBytes()) == OffsetMask(depth) as nat + 1
  {
    hide B.Pow2;
    PowersOfTwo();
  }

  lemma PowersOfTwo()
    ensures B.Pow2(12) == 0x1000 && B.Pow2(21) == 0x20_0000 && B.Pow2(30) == 0x4000_0000
  {
    assert B.Pow2(3) == 8;
    hide B.Pow2;
    B.Pow2Add(3, 3);
    B.Pow2Add(3, 6);
    B.Pow2Add(3, 9);
    B.Pow2Add(9, 12);
    B.Pow2Add(9, 21);
  }

  /** The cell starts at the frame and is as large as the pages of that depth. */
  lemma CellIsBlock(log: nat, r: Release)
    requires 1 <= r.depth <= LAST && log <= P.PageSize.Size4K.LogBytes()
    ensures CellFor(log, r).start == r.frame.start as nat
    ensures L.Size(log, CellFor(log, r).sc) == OffsetMask(r.depth) as nat + 1
  {
    hide OffsetMask, B.Pow2;
    SizesOfPages(r.depth);
    SizeOfCell(log, r);
  }

  lemma SizeOfCell(log: nat, r: Release)
    requires log <= P.PageSize.Size4K.LogBytes()
    ensures L.Size(log, CellFor(log, r).sc) == B.Pow2(SizeOf(r.depth).LogBytes())
  {
    hide B.Pow2;
  }

  /** Everything the user part holds was handed out by the resource, each page and table as a cell of its own. */
  ghost predicate Lent(log: nat, mem: Memory, tree: Tree, out: set<L.Cell>)
  {
    && (forall s :: IsUser(s) && Releasable(mem, tree, s) ==> CellFor(log, ReleaseAt(mem, tree, s)) in out)
    && (forall s, q :: IsUser(s) && Releasable(mem, tree, s) && IsUser(q) && Releasable(mem, tree, q) && s != q ==>
          CellFor(log, ReleaseAt(mem, tree, s)) != CellFor(log, ReleaseAt(mem, tree, q)))
  }

  ghost function Returned(log: nat, released: Releases): set<L.Cell>
  {
    set s | s in released :: CellFor(log, released[s])
  }

  /** Only what the user part holds has been released, and as it should. */
  ghost predicate Proper(mem: Memory, tree: Tree, released: Releases)
  {
    forall s :: s in released ==>
      IsUser(s) && Releasable(mem, tree, s) && released[s] == ReleaseAt(mem, tree, s)
  }

  lemma StillLent(log: nat, mem: Memory, tree: Tree, out: set<L.Cell>, released: Releases, s: Path)
    requires Lent(log, mem, tree, out) && Proper(mem, tree, released)
    requires IsUser(s) && Releasable(mem, tree, s) && s !in released
    ensures CellFor(log, ReleaseAt(mem, tree, s)) in out - Returned(log, released)
    ensures var r := ReleaseAt(mem, tree, s);
            && Returned(log, released[s := r]) == Returned(log, released) + {CellFor(log, r)}
            && Proper(mem, tree, released[s := r])
  {
    hide IsUser, Releasable, ReleaseAt, CellFor;
    var r := ReleaseAt(mem, tree, s);
    var released' := released[s := r];
    assert released'[s] == r;
    assert forall q :: q in released ==> released'[q] == released[q];
  }

  class Teardown {
    const resource: P.PhysicalPageResource
    ghost const out0: set<L.Cell>
    ghost const mem0: Memory
    ghost const tree: Tree
    var mem: Memory
    ghost var released: Releases

    /** The resource has got back exactly the cells of what has been released. */
    ghost predicate Backed()
      reads this, resource.pool, resource.pool.table
    {
      && resource.Valid()
      && resource.pool.log <= P.PageSize.Size4K.LogBytes()
      && P.PageSize.Size1G.LogBytes() < resource.pool.log + resource.pool.table.Length
      && Lent(resource.pool.log, mem0, tree, out0)
      && Proper(mem0, tree, released)
      && resource.pool.out == out0 - Returned(resource.pool.log, released)
    }

    constructor (resource: P.PhysicalPageResource, mem: Memory, ghost tree: Tree)
      ensures this.resource == resource && out0 == resource.pool.out
      ensures this.mem == mem0 == mem && this.tree == tree && released == map[]
    {
      this.resource, this.out0 := resource, resource.pool.out;
      this.mem0, this.mem, this.tree, released := mem, mem, tree, map[];
    }

    /** Gives the frame at the path `s` back. */
    method ReleaseFrame(frame: Frame, depth: nat, ghost s: Path)
      requires Backed() && s !in released && IsUser(s) && Releasable(mem0, tree, s)
      requires Release(frame, depth) == ReleaseAt(mem0, tree, s)
      modifies this`mem, this`released, resource.pool`mem, resource.pool`lists, resource.pool`out, resource.pool.table
      ensures Backed()
      ensures mem == Without(old(mem), Release(frame, depth))
      ensures released == old(released)[s := Release(frame, depth)]
    {
      hide Lent, Proper, Returned, IsUser, Releasable, ReleaseAt, Without;
      StillLent(resource.pool.log, mem0, tree, out0, released, s);
      resource.Release(SizeOf(depth), frame.start as nat);
      mem := Without(mem, Release(frame, depth));
      released := released[s := Release(frame, depth)];
    }

    /** Gives back all that lies under the visited entries of a table, and the table. */
    method ReleaseUserPageTable(table: Frame, depth: nat, ghost p: Path)
      requires IsTree(mem0, tree) && Owned(mem0, tree) && Backed()
      requires p in tree && tree[p] == table && Depth(p) == depth && IsUser(p)
      requires forall q :: q in tree && q in Visited(p) ==> Alive(mem0, tree, mem, q)
      requires forall s :: s in released ==> s !in Visited(p)
      modifies this`mem, this`released, resource.pool`mem, resource.pool`lists, resource.pool`out, resource.pool.table
      ensures Backed()
      ensures Gone(mem0, tree, old(mem), old(released), mem, released, Visited(p))
      decreases LAST - depth
    {
      hide IsTree, Owned, Visited, First, Alive, Gone, Releasable, ReleaseAt, Without, IsEmpty, Present, IsBlock, FrameOf,
        Index, Below, Under, IsUser, Backed;
      ghost var memA, relA := mem, released;
      GoneNothing(mem0, tree, mem, released, p);
      var i := 0;
      while i < ENTRIES
        invariant i <= Bound(p) && Backed()
        invariant Gone(mem0, tree, memA, relA, mem, released, First(p, i))
      {
        if depth == 0 && i >= Index(KERNEL_START, 0) {
          break;
        }
        ghost var c, memB, relB := Step(p, i), mem, released;
        UserEntry(p, i);
        NextIsFresh(mem0, tree, memA, relA, mem, released, p, i);
        EntryFacts(mem0, tree, mem, p, i);
        var entry := mem[table][i];
        if IsEmpty(entry) || !Present(entry) {
          EntrySkipped(mem0, tree, memA, relA, memB, relB, p, i);
        } else if IsBlock(entry) || depth == LAST {
          assert depth != 0;
          PageReleased(mem0, tree, memA, relA, memB, relB, p, i, Release(FrameOf(entry), depth));
          ReleaseFrame(FrameOf(entry), depth, c);
        } else {
          ChildIsFresh(mem0, tree, mem, released, c);
          ReleaseUserPageTable(FrameOf(entry), depth + 1, c);
          TableReleased(mem0, tree, memA, relA, memB, relB, mem, released, p, i);
        }
        i := i + 1;
      }
      LastReleased(mem0, tree, memA, relA, mem, released, p);
      TableIsReleasable(mem0, tree, p);
      ReleaseFrame(table, LAST, p);
    }

    /** Teardown from the root: every page and table of the user part is given back, once and at its size, to
        the physical page resource, and every table of the kernel is as it was. */
    method ReleaseAddressSpace(root: Frame)
      requires IsTree(mem0, tree) && Owned(mem0, tree) && Backed() && tree[Root] == root
      requires mem == mem0 && released == map[]
      modifies this`mem, this`released, resource.pool`mem, resource.pool`lists, resource.pool`out, resource.pool.table
      ensures forall s :: s in released <==> IsUser(s) && Releasable(mem0, tree, s)
      ensures forall s :: s in released ==> released[s] == ReleaseAt(mem0, tree, s)
      ensures AllReleased(mem0, tree, released)
      ensures forall q :: q in tree && IsUser(q) ==> tree[q] !in mem
      ensures forall q :: q in tree && !IsUser(q) ==> tree[q] in mem && mem[tree[q]] == old(mem)[tree[q]]
      ensures resource.Valid()
      ensures resource.pool.out == old(resource.pool.out) - Returned(resource.pool.log, released)
    {
      hide Separate, Linked, Pointed, Sound, Owned, Releasable, ReleaseAt, Index, Lent, Proper, IsUser, AllReleased;
      NothingReturned(resource.pool.log);
      AllAlive(mem0, tree);
      UserRoot();
      ReleaseUserPageTable(root, 0, Root);
      UserPartIsGone(mem0, tree, mem, released);
      ReleasesOfEntries(mem0, tree, released);
    }
  }

  lemma UserEntry(p: Path, i: nat)
    requires IsUser(p) && i < Bound(p)
    ensures IsUser(Step(p, i))
  {
    hide Index;
  }

  lemma UserRoot()
    ensures IsUser(Root)
  {
  }

  lemma TableIsReleasable(mem: Memory, tree: Tree, p: Path)
    requires p in tree
    ensures Releasable(mem, tree, p) && ReleaseAt(mem, tree, p) == Release(tree[p], LAST)
  {
  }

  lemma NothingReturned(log: nat)
    ensures Returned(log, map[]) == {}
  {
  }

  lemma AllAlive(mem: Memory, tree: Tree)
    requires Shaped(mem, tree)
    ensures forall q :: q in tree ==> Alive(mem, tree, mem, q)
  {
  }

  /** Teardown from the root gives back every page and table of the user part, once and at its size, and leaves
      every table of the kernel as it was. */
  lemma UserPartIsGone(mem: Memory, tree: Tree, mem': Memory, released: Releases)
    requires IsTree(mem, tree) && Gone(mem, tree, mem, map[], mem', released, Visited(Root))
    ensures forall s :: s in released <==> IsUser(s) && Releasable(mem, tree, s)
    ensures forall s :: s in released ==> released[s] == ReleaseAt(mem, tree, s)
    ensures forall q :: q in tree && IsUser(q) ==> tree[q] !in mem'
    ensures forall q :: q in tree && !IsUser(q) ==> tree[q] in mem' && mem'[tree[q]] == mem[tree[q]]
  {
    hide Separate, Linked, Pointed, Sound, Releasable, ReleaseAt, Index;
    assert forall s :: s in Visited(Root) <==> IsUser(s);
    forall q | q in tree && !IsUser(q)
      ensures tree[q] in mem' && mem'[tree[q]] == mem[tree[q]]
    {
      assert Alive(mem, tree, mem, q);
    }
  }

  /** Word by word: of the user part every table is released as a 4 KB frame, an entry that leads to no table
      exactly when it is present, as the frame in it and at the size of its level, and nothing else is. */
  ghost predicate AllReleased(mem: Memory, tree: Tree, released: Releases)
  {
    && (forall q :: q in tree && IsUser(q) ==> q in released && released[q] == Release(tree[q], LAST))
    && (forall p, i: nat :: p in tree && Step(p, i) !in tree && IsUser(Step(p, i)) ==>
          (Step(p, i) in released <==> Present(WordAt(mem, tree, p, i))))
    && (forall p, i: nat :: p in tree && Step(p, i) !in tree && Step(p, i) in released ==>
          released[Step(p, i)] == Release(FrameOf(WordAt(mem, tree, p, i)), Depth(p)))
    && (forall s :: s in released ==> IsUser(s) && (s in tree || (s.Step? && s.parent in tree)))
  }

  lemma ReleasesOfEntries(mem: Memory, tree: Tree, released: Releases)
    requires Shaped(mem, tree)
    requires forall s :: s in released <==> IsUser(s) && Releasable(mem, tree, s)
    requires forall s :: s in released ==> released[s] == ReleaseAt(mem, tree, s)
    ensures AllReleased(mem, tree, released)
  {
    hide IsUser, Present, FrameOf;
    NotPresent();
    forall p, i: nat | p in tree && Step(p, i) !in tree
      ensures LeafAt(mem, tree, Step(p, i)) == WordAt(mem, tree, p, i)
    {
    }
  }

  /** A path below an entry of the root is a user's exactly when the entry is below the kernel's first. */
  lemma UserByFirstIndex(s: Path, i: nat)
    requires Below(s, Step(Root, i))
    ensures IsUser(s) <==> i < 510
  {
    hide Index;
    KernelIndex();
    UnderByFirstIndex(s, i, 510);
    BelowIsDeeper(s, Step(Root, i));
    assert Depth(Step(Root, i)) == 1;
  }

  lemma {:induction false} UnderByFirstIndex(s: Path, i: nat, k: nat)
    requires Below(s, Step(Root, i))
    ensures Under(s, Root, k) <==> i < k
  {
    BelowIsDeeper(s, Step(Root, i));
    assert Depth(Step(Root, i)) == 1;
    if s != Step(Root, i) {
      UnderByFirstIndex(s.parent, i, k);
      BelowIsDeeper(s.parent, Step(Root, i));
    }
  }

  /** No frame lies in the blocks of two pages of the user. */
  ghost predicate PagesApart(mem: Memory, tree: Tree)
  {
    forall s, q, f :: IsPageOf(mem, tree, s) && IsPageOf(mem, tree, q) && s != q ==>
      !(Covers(ReleaseAt(mem, tree, s), f) && Covers(ReleaseAt(mem, tree, q), f))
  }

  /** Then no frame lies in two of the blocks that are given back, of pages or of tables. */
  lemma FramesReleasedOnce(mem: Memory, tree: Tree, s: Path, q: Path, f: Frame)
    requires IsTree(mem, tree) && Owned(mem, tree) && PagesApart(mem, tree) && IsFrame(f.start) && s != q
    requires IsUser(s) && Releasable(mem, tree, s) && IsUser(q) && Releasable(mem, tree, q)
    ensures !(Covers(ReleaseAt(mem, tree, s), f) && Covers(ReleaseAt(mem, tree, q), f))
  {
    hide Shaped, Linked, Pointed, Sound, Owned, Releasable, InPage, IsUser, IsFrame;
    if s in tree && Covers(ReleaseAt(mem, tree, s), f) {
      OnlyItsFrame(mem, tree, s, q, f);
    } else if q in tree && Covers(ReleaseAt(mem, tree, q), f) {
      OnlyItsFrame(mem, tree, q, s, f);
    }
  }

  /** The block of a table is its frame, which no other block covers. */
  lemma OnlyItsFrame(mem: Memory, tree: Tree, s: Path, q: Path, f: Frame)
    requires Separate(tree) && Owned(mem, tree) && IsFrame(f.start) && s in tree && s != q
    requires IsUser(q) && Releasable(mem, tree, q) && Covers(ReleaseAt(mem, tree, s), f)
    ensures !Covers(ReleaseAt(mem, tree, q), f)
  {
    hide InPage, IsFrame, Present, LeafAt, FrameOf, IsUser, Releasable;
    SameFrame(f.start, tree[s].start);
    TablesCovered(mem, tree, q, s);
  }
}
