/**
 The tree of translation tables. Physical memory maps the frame of a table to its 512 entries; beside it
 stands a shadow tree, which names each table by its path from the root.

 What the tables mean is a plain map from pages to entries: `LeafAt`. Three changes of memory make up `map`
 and `unmap`: hanging in an empty table, writing a leaf and taking out an empty table. Each is proved here
 to keep the tree well formed and to change the plain map as it should.
 */
module PageTree {
  import opened Options
  import opened PageTableEntry

  type Memory = map<Frame, seq<bv64>>

  const ENTRIES: nat := 512
  const LAST: nat := 3

  datatype Path = Root | Step(parent: Path, index: nat)

  type Tree = map<Path, Frame>

  function Depth(p: Path): nat
  {
    if p.Root? then 0 else Depth(p.parent) + 1
  }

  /** The path of the first `n` indices of an address: a table for `n` up to 3, an entry of it for `n + 1`. */
  function PathOf(a: bv64, n: nat): Path
    requires n <= 4
  {
    if n == 0 then Root else Step(PathOf(a, n - 1), Index(a, n - 1))
  }

  predicate Below(s: Path, q: Path)
  {
    s == q || (s.Step? && Below(s.parent, q))
  }

  function EmptyTable(): seq<bv64>
  {
    seq(ENTRIES, i => 0)
  }

  function WordAt(mem: Memory, tree: Tree, p: Path, i: nat): bv64
  {
    if p in tree && tree[p] in mem && i < |mem[tree[p]]| then mem[tree[p]][i] else 0
  }

  // ---- well-formed trees ----

  ghost predicate Shaped(mem: Memory, tree: Tree)
  {
    && Root in tree
    && (forall p :: p in tree ==> Depth(p) <= LAST && tree[p] in mem && |mem[tree[p]]| == ENTRIES)
    && (forall p :: p in tree && p.Step? ==> p.parent in tree && p.index < ENTRIES)
  }

  ghost predicate Separate(tree: Tree)
  {
    forall p, q :: p in tree && q in tree && tree[p] == tree[q] ==> p == q
  }

  /** Exactly the entries that point to tables lead to tables of the tree. */
  ghost predicate Linked(mem: Memory, tree: Tree)
  {
    forall p, i: nat :: p in tree && Depth(p) < LAST && i < ENTRIES ==>
      (IsTable(WordAt(mem, tree, p, i)) <==> Step(p, i) in tree)
  }

  ghost predicate Pointed(mem: Memory, tree: Tree)
  {
    forall p :: p in tree && p.Step? ==> tree[p] == FrameOf(WordAt(mem, tree, p.parent, p.index))
  }

  /** Above the last level an entry is empty, a table or, below the root, a block. */
  ghost predicate Sound(mem: Memory, tree: Tree)
  {
    forall p, i: nat :: p in tree && Depth(p) < LAST && i < ENTRIES && !IsEmpty(WordAt(mem, tree, p, i)) ==>
      IsTable(WordAt(mem, tree, p, i)) || (p != Root && IsBlock(WordAt(mem, tree, p, i)))
  }

  ghost predicate IsTree(mem: Memory, tree: Tree)
  {
    Shaped(mem, tree) && Separate(tree) && Linked(mem, tree) && Pointed(mem, tree) && Sound(mem, tree)
  }

  ghost predicate HasEntry(mem: Memory, tree: Tree, p: Path)
  {
    exists i: nat :: !IsEmpty(WordAt(mem, tree, p, i))
  }

  /** Every table but the root, and but `except`, has an entry. */
  ghost predicate Populated(mem: Memory, tree: Tree, except: Path)
  {
    forall p :: p in tree && p != Root && p != except ==> HasEntry(mem, tree, p)
  }

  /** The table found by following the pointers in memory along a path. */
  function Reach(mem: Memory, root: Frame, p: Path): Option<Frame>
  {
    match p
    case Root => Some(root)
    case Step(q, i) =>
      match Reach(mem, root, q)
      case None => None
      case Some(f) =>
        if Depth(q) < LAST && f in mem && i < |mem[f]| && IsTable(mem[f][i]) then Some(FrameOf(mem[f][i])) else None
  }

  /** The tree is what memory says: its tables are exactly those that the pointers reach. */
  lemma {:induction false} TreeIsReachable(mem: Memory, tree: Tree, root: Frame, p: Path)
    requires IsTree(mem, tree) && tree[Root] == root
    ensures Reach(mem, root, p) == if p in tree then Some(tree[p]) else None
  {
    hide IsTable, FrameOf, Separate, Sound;
    match p
    case Root =>
    case Step(q, i) =>
      TreeIsReachable(mem, tree, root, q);
      assert Step(q, i) in tree ==> Depth(Step(q, i)) == Depth(q) + 1;
  }

  // ---- the plain map ----

  /** The entry that maps the page with the path, or zero. */
  function LeafAt(mem: Memory, tree: Tree, s: Path): bv64
  {
    if s.Step? && s !in tree then WordAt(mem, tree, s.parent, s.index) else 0
  }

  datatype Lookup = Unmapped | Mapped(address: bv64)

  function At(frame: bv64, offset: bv64): bv64
  {
    frame + offset
  }

  /** The address an entry of a table of that depth maps an address to. */
  function Target(w: bv64, a: bv64, depth: nat): bv64
  {
    At(AddressOf(w), Offset(a, OffsetMask(depth)))
  }

  /** The translation by the entries that map the pages of 1 GB, of 2 MB and of 4 KB an address is in. */
  function FirstOf(w1: bv64, w2: bv64, w3: bv64, a: bv64): Lookup
  {
    if !IsEmpty(w1) then Mapped(Target(w1, a, 1))
    else if !IsEmpty(w2) then Mapped(Target(w2, a, 2))
    else if !IsEmpty(w3) then Mapped(Target(w3, a, 3))
    else Unmapped
  }

  /** Translation by the plain map. */
  function LookupAt(mem: Memory, tree: Tree, a: bv64): Lookup
  {
    FirstOf(LeafAt(mem, tree, PathOf(a, 2)), LeafAt(mem, tree, PathOf(a, 3)), LeafAt(mem, tree, PathOf(a, 4)), a)
  }

  /** Two trees with the same plain map. */
  ghost predicate SameLeaves(mem: Memory, tree: Tree, mem': Memory, tree': Tree)
  {
    forall s :: LeafAt(mem', tree', s) == LeafAt(mem, tree, s)
  }

  /** The plain map with the entry of one page changed, and with it the end of all pages inside. */
  ghost predicate LeafWritten(mem: Memory, tree: Tree, mem': Memory, tree': Tree, slot: Path, w: bv64)
  {
    forall s :: LeafAt(mem', tree', s) ==
                if s == slot then w else if Below(s, slot) then 0 else LeafAt(mem, tree, s)
  }

  /** The entries that lead to tables are as before; those that lead to new tables hold the frame of the table and
      the flags of one. */
  ghost predicate LinksKept(mem: Memory, tree: Tree, mem': Memory, tree': Tree)
  {
    forall q :: q in tree' && q.Step? ==>
      WordAt(mem', tree', q.parent, q.index) ==
      if q in tree then WordAt(mem, tree, q.parent, q.index) else TableEntry(tree'[q])
  }

  lemma LinksKeptTwice(mem0: Memory, tree0: Tree, mem1: Memory, tree1: Tree, mem2: Memory, tree2: Tree)
    requires LinksKept(mem0, tree0, mem1, tree1) && LinksKept(mem1, tree1, mem2, tree2)
    requires forall q :: q in tree2 && q in tree0 ==> q in tree1
    requires forall q :: q in tree2 && q in tree1 ==> tree2[q] == tree1[q]
    ensures LinksKept(mem0, tree0, mem2, tree2)
  {
    hide WordAt, TableEntry;
  }

  // ---- paths ----

  lemma DepthOfPath(a: bv64, n: nat)
    requires n <= 4
    ensures Depth(PathOf(a, n)) == n
  {
  }

  /** Addresses share a path exactly when they share the page. */
  lemma {:induction false} SamePath(a: bv64, b: bv64, depth: nat)
    requires depth < 4
    ensures PathOf(a, depth + 1) == PathOf(b, depth + 1) <==> InPage(a, b, depth)
  {
    hide InPage, Index;
    InPageByIndex(a, b, depth);
    if depth > 0 {
      SamePath(a, b, depth - 1);
    } else {
      assert PathOf(a, 0) == PathOf(b, 0) == Root;
    }
  }

  lemma {:induction false} BelowIsDeeper(s: Path, q: Path)
    requires Below(s, q)
    ensures Depth(q) <= Depth(s) && (s != q ==> Depth(q) < Depth(s))
  {
    if s != q {
      BelowIsDeeper(s.parent, q);
    }
  }

  /** With a table all tables above it are in the tree. */
  lemma {:induction false} AncestorsInTree(mem: Memory, tree: Tree, s: Path, q: Path)
    requires Shaped(mem, tree) && s in tree && Below(s, q)
    ensures q in tree
  {
    if s != q {
      AncestorsInTree(mem, tree, s.parent, q);
    }
  }

  // ---- writing one entry ----

  function Store(mem: Memory, f: Frame, i: nat, w: bv64): Memory
    requires f in mem && i < |mem[f]|
  {
    mem[f := mem[f][i := w]]
  }

  lemma WordAfterStore(mem: Memory, tree: Tree, p: Path, i: nat, w: bv64, q: Path, j: nat)
    requires Shaped(mem, tree) && Separate(tree) && p in tree && i < ENTRIES
    ensures WordAt(Store(mem, tree[p], i, w), tree, q, j) == if q == p && j == i then w else WordAt(mem, tree, q, j)
  {
    var mem' := Store(mem, tree[p], i, w);
    if q in tree && q != p {
      assert mem'[tree[q]] == mem[tree[q]];
    }
  }

  /** The entries of the tables of a smaller tree are as before, but for one. */
  ghost predicate WordWritten(mem: Memory, tree: Tree, mem': Memory, tree': Tree, p: Path, i: nat, w: bv64)
  {
    forall q, j: nat :: q in tree' ==>
      WordAt(mem', tree', q, j) == if q == p && j == i then w else WordAt(mem, tree, q, j)
  }

  /** A tree smaller by all that an entry leads to. */
  ghost predicate Pruned(tree: Tree, tree': Tree, p: Path, i: nat)
  {
    && p in tree' && Step(p, i) !in tree'
    && (forall q :: q in tree' ==> q in tree && tree'[q] == tree[q])
    && (forall q :: q in tree' && q.Step? ==> q.parent in tree')
    && (forall q, j: nat :: q in tree' && !(q == p && j == i) && Step(q, j) in tree ==> Step(q, j) in tree')
  }

  lemma PrunedIsLinked(mem: Memory, tree: Tree, mem': Memory, tree': Tree, p: Path, i: nat, w: bv64)
    requires IsTree(mem, tree) && Pruned(tree, tree', p, i) && WordWritten(mem, tree, mem', tree', p, i, w)
    requires IsLeaf(w, p) && i < ENTRIES
    ensures Linked(mem', tree') && Pointed(mem', tree') && Sound(mem', tree') && Separate(tree')
  {
    hide IsEmpty, IsTable, IsBlock, FrameOf;
    assert Separate(tree');
    forall q, j: nat | q in tree' && Depth(q) < LAST && j < ENTRIES
      ensures IsTable(WordAt(mem', tree', q, j)) <==> Step(q, j) in tree'
    {
      assert IsTable(WordAt(mem, tree, q, j)) <==> Step(q, j) in tree;
    }
    forall q | q in tree' && q.Step?
      ensures tree'[q] == FrameOf(WordAt(mem', tree', q.parent, q.index))
    {
      assert q.parent in tree' && q == Step(q.parent, q.index);
    }
  }

  lemma PrunedIsPopulated(mem: Memory, tree: Tree, mem': Memory, tree': Tree, p: Path, i: nat, w: bv64)
    requires Pruned(tree, tree', p, i) && WordWritten(mem, tree, mem', tree', p, i, w)
    ensures Populated(mem, tree, Root) || Populated(mem, tree, p) ==>
              Populated(mem', tree', if IsEmpty(w) then p else Root)
  {
    hide IsEmpty, WordAt;
    if !IsEmpty(w) {
      assert !IsEmpty(WordAt(mem', tree', p, i));
    }
    forall q | q in tree' && q != p && HasEntry(mem, tree, q)
      ensures HasEntry(mem', tree', q)
    {
      var j: nat :| !IsEmpty(WordAt(mem, tree, q, j));
      assert !IsEmpty(WordAt(mem', tree', q, j));
    }
  }

  lemma PrunedKeepsLinks(mem: Memory, tree: Tree, mem': Memory, tree': Tree, p: Path, i: nat, w: bv64)
    requires Pruned(tree, tree', p, i) && WordWritten(mem, tree, mem', tree', p, i, w)
    ensures LinksKept(mem, tree, mem', tree')
  {
    hide WordAt, TableEntry;
    forall q | q in tree' && q.Step?
      ensures WordAt(mem', tree', q.parent, q.index) == WordAt(mem, tree, q.parent, q.index)
    {
      assert q == Step(q.parent, q.index);
    }
  }

  // ---- writing a leaf ----

  /** The tree without the tables at or below an entry. */
  ghost function Cut(tree: Tree, slot: Path): Tree
  {
    map q | q in tree && !Below(q, slot) :: tree[q]
  }

  /** An entry that may be written at a path: not a table, and no block in the root. */
  predicate IsLeaf(w: bv64, p: Path)
  {
    Depth(p) == LAST || (!IsTable(w) && (IsEmpty(w) || (p != Root && IsBlock(w))))
  }

  lemma CutIsPruned(mem: Memory, tree: Tree, p: Path, i: nat)
    requires Shaped(mem, tree) && p in tree
    ensures Pruned(tree, Cut(tree, Step(p, i)), p, i)
  {
    var slot := Step(p, i);
    if Below(p, slot) {
      BelowIsDeeper(p, slot);
    }
  }

  lemma WriteLeaf(mem: Memory, tree: Tree, p: Path, i: nat, w: bv64)
    requires IsTree(mem, tree) && p in tree && i < ENTRIES && IsLeaf(w, p)
    ensures IsTree(Store(mem, tree[p], i, w), Cut(tree, Step(p, i)))
    ensures LeafWritten(mem, tree, Store(mem, tree[p], i, w), Cut(tree, Step(p, i)), Step(p, i), w)
    ensures LinksKept(mem, tree, Store(mem, tree[p], i, w), Cut(tree, Step(p, i)))
    ensures p in Cut(tree, Step(p, i))
    ensures Populated(mem, tree, Root) || Populated(mem, tree, p) ==>
              Populated(Store(mem, tree[p], i, w), Cut(tree, Step(p, i)), if IsEmpty(w) then p else Root)
  {
    hide Populated, IsEmpty, IsLeaf, Linked, Pointed, Sound, LeafWritten, LinksKept;
    var slot, mem' := Step(p, i), Store(mem, tree[p], i, w);
    var tree' := Cut(tree, slot);
    CutIsPruned(mem, tree, p, i);
    forall q, j: nat | q in tree'
      ensures WordAt(mem', tree', q, j) == if q == p && j == i then w else WordAt(mem, tree, q, j)
    {
      WordAfterStore(mem, tree, p, i, w, q, j);
    }
    PrunedIsLinked(mem, tree, mem', tree', p, i, w);
    PrunedIsPopulated(mem, tree, mem', tree', p, i, w);
    PrunedKeepsLinks(mem, tree, mem', tree', p, i, w);
    CutLeaves(mem, tree, mem', p, i, w);
  }

  lemma CutLeaves(mem: Memory, tree: Tree, mem': Memory, p: Path, i: nat, w: bv64)
    requires Shaped(mem, tree) && p in tree
    requires p in Cut(tree, Step(p, i))
    requires WordWritten(mem, tree, mem', Cut(tree, Step(p, i)), p, i, w)
    ensures LeafWritten(mem, tree, mem', Cut(tree, Step(p, i)), Step(p, i), w)
  {
    var slot := Step(p, i);
    var tree' := Cut(tree, slot);
    forall s
      ensures LeafAt(mem', tree', s) == if s == slot then w else if Below(s, slot) then 0 else LeafAt(mem, tree, s)
    {
      if s.Step? && s != slot {
        assert Below(s, slot) <==> Below(s.parent, slot);
      }
    }
  }

  // ---- taking out an empty table ----

  lemma NothingBelow(mem: Memory, tree: Tree, q: Path)
    requires IsTree(mem, tree) && q in tree && q.Step? && !HasEntry(mem, tree, q)
    ensures forall j: nat :: WordAt(mem, tree, q, j) == 0 && Step(q, j) !in tree
    ensures Pruned(tree, tree - {q}, q.parent, q.index)
  {
    hide IsTable, IsBlock, FrameOf, Sound, Separate, WordAt;
    EmptyEntry();
    forall j: nat
      ensures WordAt(mem, tree, q, j) == 0 && Step(q, j) !in tree
    {
      assert IsEmpty(WordAt(mem, tree, q, j));
      assert Step(q, j) in tree ==> Depth(q) < LAST && j < ENTRIES;
    }
  }

  lemma TakeOut(mem: Memory, tree: Tree, q: Path)
    requires IsTree(mem, tree) && q in tree && q.Step? && !HasEntry(mem, tree, q)
    ensures q.parent in tree && tree[q.parent] in mem && tree[q.parent] != tree[q] && q.index < |mem[tree[q.parent]]|
    ensures IsTree(Store(mem - {tree[q]}, tree[q.parent], q.index, 0), tree - {q})
    ensures SameLeaves(mem, tree, Store(mem - {tree[q]}, tree[q.parent], q.index, 0), tree - {q})
    ensures LinksKept(mem, tree, Store(mem - {tree[q]}, tree[q.parent], q.index, 0), tree - {q})
    ensures Populated(mem, tree, q) ==>
              Populated(Store(mem - {tree[q]}, tree[q.parent], q.index, 0), tree - {q}, q.parent)
  {
    hide Populated, Linked, Pointed, Sound, SameLeaves, LinksKept, IsTable, IsBlock, FrameOf, HasEntry;
    var p, i := q.parent, q.index;
    var mem', tree' := Store(mem - {tree[q]}, tree[p], i, 0), tree - {q};
    NothingBelow(mem, tree, q);
    forall r, j: nat | r in tree'
      ensures WordAt(mem', tree', r, j) == if r == p && j == i then 0 else WordAt(mem, tree, r, j)
    {
      WordAfterStore(mem, tree, p, i, 0, r, j);
    }
    EmptyEntry();
    PrunedIsLinked(mem, tree, mem', tree', p, i, 0);
    PrunedKeepsLinks(mem, tree, mem', tree', p, i, 0);
    TakeOutPopulated(mem, tree, mem', q);
    TakeOutLeaves(mem, tree, mem', q);
  }

  lemma TakeOutPopulated(mem: Memory, tree: Tree, mem': Memory, q: Path)
    requires q in tree && q.Step? && WordWritten(mem, tree, mem', tree - {q}, q.parent, q.index, 0)
    ensures Populated(mem, tree, q) ==> Populated(mem', tree - {q}, q.parent)
  {
    hide IsEmpty, WordAt;
    var tree' := tree - {q};
    forall r | r in tree' && r != q.parent && HasEntry(mem, tree, r)
      ensures HasEntry(mem', tree', r)
    {
      var j: nat :| !IsEmpty(WordAt(mem, tree, r, j));
      assert !IsEmpty(WordAt(mem', tree', r, j));
    }
  }

  lemma TakeOutLeaves(mem: Memory, tree: Tree, mem': Memory, q: Path)
    requires q in tree && q.Step? && WordWritten(mem, tree, mem', tree - {q}, q.parent, q.index, 0)
    requires forall j: nat :: WordAt(mem, tree, q, j) == 0 && Step(q, j) !in tree
    ensures SameLeaves(mem, tree, mem', tree - {q})
  {
    var tree' := tree - {q};
    forall s
      ensures LeafAt(mem', tree', s) == LeafAt(mem, tree, s)
    {
      if s.Step? && s.parent == q {
        assert s == Step(q, s.index);
      }
    }
  }

  // ---- hanging in an empty table ----

  /** The entries after a new table is hung in. */
  ghost predicate Hung(mem: Memory, tree: Tree, mem': Memory, tree': Tree, p: Path, i: nat, w: bv64)
  {
    forall q, j: nat ::
      WordAt(mem', tree', q, j) ==
      if q == p && j == i then w else if q == Step(p, i) then 0 else WordAt(mem, tree, q, j)
  }

  lemma HungWords(mem: Memory, tree: Tree, p: Path, i: nat, f: Frame, w: bv64)
    requires Shaped(mem, tree) && Separate(tree) && p in tree && i < ENTRIES
    requires f !in tree.Values && Step(p, i) !in tree
    ensures f != tree[p]
    ensures Hung(mem, tree, Store(mem[f := EmptyTable()], tree[p], i, w), tree[Step(p, i) := f], p, i, w)
  {
    var mem', tree' := Store(mem[f := EmptyTable()], tree[p], i, w), tree[Step(p, i) := f];
    forall q, j: nat
      ensures WordAt(mem', tree', q, j) ==
              if q == p && j == i then w else if q == Step(p, i) then 0 else WordAt(mem, tree, q, j)
    {
      if q in tree {
        assert tree[q] in tree.Values;
        WordAfterStore(mem, tree, p, i, w, q, j);
        assert q != p ==> mem'[tree[q]] == mem[tree[q]];
      } else if q == Step(p, i) {
        assert mem'[f] == EmptyTable();
      }
    }
  }

  lemma DepthOfStep(p: Path, i: nat)
    ensures Depth(Step(p, i)) == Depth(p) + 1
  {
  }

  lemma HungIsShaped(mem: Memory, tree: Tree, mem': Memory, tree': Tree, p: Path, i: nat, f: Frame, w: bv64)
    requires Shaped(mem, tree) && p in tree && Depth(p) < LAST && i < ENTRIES
    requires f != tree[p] && tree' == tree[Step(p, i) := f]
    requires mem' == Store(mem[f := EmptyTable()], tree[p], i, w)
    ensures Shaped(mem', tree')
  {
    hide Depth;
    DepthOfStep(p, i);
    forall q | q in tree'
      ensures Depth(q) <= LAST && tree'[q] in mem' && |mem'[tree'[q]]| == ENTRIES
    {
      assert q in tree ==> |mem[tree[q]]| == ENTRIES;
    }
  }

  lemma HungIsSeparate(tree: Tree, slot: Path, f: Frame)
    requires Separate(tree) && f !in tree.Values && slot !in tree
    ensures Separate(tree[slot := f])
  {
    assert forall q :: q in tree ==> tree[q] in tree.Values;
  }

  lemma HungIsLinked(mem: Memory, tree: Tree, mem': Memory, tree': Tree, p: Path, i: nat, f: Frame, w: bv64)
    requires Shaped(mem, tree) && Linked(mem, tree) && p in tree && Depth(p) < LAST && i < ENTRIES
    requires Step(p, i) !in tree && tree' == tree[Step(p, i) := f]
    requires Hung(mem, tree, mem', tree', p, i, w) && IsTable(w)
    ensures Linked(mem', tree')
  {
    hide IsEmpty, IsTable, IsBlock, WordAt, Depth;
    EmptyEntry();
    forall q, j: nat | q in tree' && Depth(q) < LAST && j < ENTRIES
      ensures IsTable(WordAt(mem', tree', q, j)) <==> Step(q, j) in tree'
    {
      assert q in tree ==> (IsTable(WordAt(mem, tree, q, j)) <==> Step(q, j) in tree);
      assert Step(Step(p, i), j) !in tree;
    }
  }

  lemma HungIsPointed(mem: Memory, tree: Tree, mem': Memory, tree': Tree, p: Path, i: nat, f: Frame, w: bv64)
    requires Shaped(mem, tree) && Pointed(mem, tree)
    requires Step(p, i) !in tree && tree' == tree[Step(p, i) := f]
    requires Hung(mem, tree, mem', tree', p, i, w) && FrameOf(w) == f
    ensures Pointed(mem', tree')
  {
    hide FrameOf, WordAt, Depth;
    forall q | q in tree' && q.Step?
      ensures tree'[q] == FrameOf(WordAt(mem', tree', q.parent, q.index))
    {
      assert q == Step(q.parent, q.index);
    }
  }

  lemma HungIsSound(mem: Memory, tree: Tree, mem': Memory, tree': Tree, p: Path, i: nat, f: Frame)
    requires Sound(mem, tree) && tree' == tree[Step(p, i) := f]
    requires Hung(mem, tree, mem', tree', p, i, TableEntry(f)) && IsFrame(f.start)
    ensures Sound(mem', tree')
  {
    hide IsEmpty, IsTable, IsBlock, IsFrame, TableEntry, WordAt, Depth;
    TableEntryRoundTrip(f);
    EmptyEntry();
  }

  lemma HungIsPopulated(mem: Memory, tree: Tree, mem': Memory, tree': Tree, p: Path, i: nat, f: Frame, w: bv64)
    requires tree' == tree[Step(p, i) := f] && Hung(mem, tree, mem', tree', p, i, w) && !IsEmpty(w)
    ensures Populated(mem, tree, Root) || Populated(mem, tree, p) ==> Populated(mem', tree', Step(p, i))
  {
    hide IsEmpty, WordAt;
    assert !IsEmpty(WordAt(mem', tree', p, i));
    forall q | q in tree && q != p && q != Step(p, i) && HasEntry(mem, tree, q)
      ensures HasEntry(mem', tree', q)
    {
      var j: nat :| !IsEmpty(WordAt(mem, tree, q, j));
      assert !IsEmpty(WordAt(mem', tree', q, j));
    }
  }

  lemma HangTable(mem: Memory, tree: Tree, p: Path, i: nat, f: Frame)
    requires IsTree(mem, tree) && p in tree && Depth(p) < LAST && i < ENTRIES
    requires IsEmpty(WordAt(mem, tree, p, i)) && f !in tree.Values && IsFrame(f.start)
    ensures Step(p, i) !in tree
    ensures IsTree(Store(mem[f := EmptyTable()], tree[p], i, TableEntry(f)), tree[Step(p, i) := f])
    ensures SameLeaves(mem, tree, Store(mem[f := EmptyTable()], tree[p], i, TableEntry(f)), tree[Step(p, i) := f])
    ensures LinksKept(mem, tree, Store(mem[f := EmptyTable()], tree[p], i, TableEntry(f)), tree[Step(p, i) := f])
    ensures Populated(mem, tree, Root) || Populated(mem, tree, p) ==>
              Populated(Store(mem[f := EmptyTable()], tree[p], i, TableEntry(f)), tree[Step(p, i) := f], Step(p, i))
  {
    hide Populated, Separate, Linked, Pointed, FrameOf, IsFrame, TableEntry, WordAt, Sound, Hung, SameLeaves,
      LinksKept;
    EmptyIsNoTable(mem, tree, p, i);
    var mem', tree' := Store(mem[f := EmptyTable()], tree[p], i, TableEntry(f)), tree[Step(p, i) := f];
    HungWords(mem, tree, p, i, f, TableEntry(f));
    TableEntryRoundTrip(f);
    HungIsShaped(mem, tree, mem', tree', p, i, f, TableEntry(f));
    HungIsSeparate(tree, Step(p, i), f);
    HungIsLinked(mem, tree, mem', tree', p, i, f, TableEntry(f));
    HungIsPointed(mem, tree, mem', tree', p, i, f, TableEntry(f));
    HungIsSound(mem, tree, mem', tree', p, i, f);
    HungIsPopulated(mem, tree, mem', tree', p, i, f, TableEntry(f));
    HungLeaves(mem, tree, mem', tree', p, i, f);
    HungLinks(mem, tree, mem', tree', p, i, f);
  }

  lemma HungLinks(mem: Memory, tree: Tree, mem': Memory, tree': Tree, p: Path, i: nat, f: Frame)
    requires Shaped(mem, tree) && Step(p, i) !in tree && tree' == tree[Step(p, i) := f]
    requires Hung(mem, tree, mem', tree', p, i, TableEntry(f))
    ensures LinksKept(mem, tree, mem', tree')
  {
    hide WordAt, TableEntry;
    forall q | q in tree' && q.Step?
      ensures WordAt(mem', tree', q.parent, q.index) ==
              if q in tree then WordAt(mem, tree, q.parent, q.index) else TableEntry(tree'[q])
    {
      assert q == Step(q.parent, q.index);
    }
  }

  lemma EmptyIsNoTable(mem: Memory, tree: Tree, p: Path, i: nat)
    requires Linked(mem, tree) && p in tree && Depth(p) < LAST && i < ENTRIES && IsEmpty(WordAt(mem, tree, p, i))
    ensures Step(p, i) !in tree
  {
    hide IsTable, WordAt;
    EmptyEntry();
  }

  lemma HungLeaves(mem: Memory, tree: Tree, mem': Memory, tree': Tree, p: Path, i: nat, f: Frame)
    requires Shaped(mem, tree) && Step(p, i) !in tree && tree' == tree[Step(p, i) := f]
    requires IsEmpty(WordAt(mem, tree, p, i)) && Hung(mem, tree, mem', tree', p, i, TableEntry(f))
    ensures SameLeaves(mem, tree, mem', tree')
  {
    hide TableEntry;
    forall s
      ensures LeafAt(mem', tree', s) == LeafAt(mem, tree, s)
    {
      if s.Step? && s.parent == p && s.index == i {
        assert s == Step(p, i);
      }
    }
  }
}
