/**
 What the tables of a tree translate: the walk through memory agrees with the plain map, a written leaf
 changes the translation of its page only, and the plain map alone decides which tables the tree has.
 */
module PageTranslation {
  import opened PageTableEntry
  import opened PageTree

  // ---- paths of addresses ----

  lemma {:induction false} BelowOnPath(a: bv64, n: nat, q: Path)
    requires n <= 4
    ensures Below(PathOf(a, n), q) <==> Depth(q) <= n && PathOf(a, Depth(q)) == q
  {
    hide Index;
    DepthOfPath(a, n);
    if n > 0 {
      BelowOnPath(a, n - 1, q);
    }
  }

  /** Above a table on the path of an address there are tables, below the end of the path there are none. */
  lemma OnPath(mem: Memory, tree: Tree, a: bv64, m: nat, n: nat)
    requires Shaped(mem, tree) && m <= n <= 4 && PathOf(a, n) in tree
    ensures PathOf(a, m) in tree
  {
    DepthOfPath(a, m);
    BelowOnPath(a, n, PathOf(a, m));
    AncestorsInTree(mem, tree, PathOf(a, n), PathOf(a, m));
  }

  // ---- the walk ----

  /** A walk that stops at depth `d` has found what the plain map says. */
  lemma WalkStops(mem: Memory, tree: Tree, a: bv64, d: nat)
    requires IsTree(mem, tree) && d <= LAST && PathOf(a, d) in tree && PathOf(a, d + 1) !in tree
    ensures LookupAt(mem, tree, a) ==
            var w := WordAt(mem, tree, PathOf(a, d), Index(a, d));
            if d == 0 || IsEmpty(w) then Unmapped else Mapped(Target(w, a, d))
  {
    hide Separate, Linked, Pointed, Sound, Index, Target;
    forall n: nat | n <= 4
      ensures n <= d ==> PathOf(a, n) in tree
      ensures n > d ==> PathOf(a, n) !in tree
    {
      if n <= d {
        OnPath(mem, tree, a, n, d);
      } else if PathOf(a, n) in tree {
        OnPath(mem, tree, a, d + 1, n);
      }
    }
    forall n: nat | 0 < n <= 4
      ensures LeafAt(mem, tree, PathOf(a, n)) ==
              if n == d + 1 then WordAt(mem, tree, PathOf(a, d), Index(a, d)) else 0
    {
    }
  }

  // ---- writing ----

  /** The address is not in a page larger than one of that depth. */
  predicate NoLargerPage(mem: Memory, tree: Tree, a: bv64, depth: nat)
    requires depth <= LAST
  {
    && (depth > 1 ==> IsEmpty(LeafAt(mem, tree, PathOf(a, 2))))
    && (depth > 2 ==> IsEmpty(LeafAt(mem, tree, PathOf(a, 3))))
  }

  lemma TableMeansNoLargerPage(mem: Memory, tree: Tree, a: bv64, depth: nat)
    requires Shaped(mem, tree) && 0 < depth <= LAST && PathOf(a, depth) in tree
    ensures NoLargerPage(mem, tree, a, depth)
  {
    hide Index;
    if depth > 1 {
      OnPath(mem, tree, a, 2, depth);
    }
  }

  function Written(w: bv64, a: bv64, depth: nat): Lookup
  {
    if IsEmpty(w) then Unmapped else Mapped(Target(w, a, depth))
  }

  /** The translation with one page changed, for every address. */
  ghost predicate PageWritten(mem: Memory, tree: Tree, mem': Memory, tree': Tree, page: bv64, depth: nat, w: bv64)
  {
    forall a :: LookupAt(mem', tree', a) ==
                if InPage(a, page, depth) then Written(w, a, depth) else LookupAt(mem, tree, a)
  }

  lemma LeafOnPath(mem: Memory, tree: Tree, mem': Memory, tree': Tree, page: bv64, depth: nat, w: bv64, a: bv64, n: nat)
    requires 0 < depth <= LAST && n <= 4
    requires LeafWritten(mem, tree, mem', tree', PathOf(page, depth + 1), w)
    ensures LeafAt(mem', tree', PathOf(a, n)) ==
            if n <= depth || !InPage(a, page, depth) then LeafAt(mem, tree, PathOf(a, n))
            else if n == depth + 1 then w else 0
  {
    hide Index, InPage, LeafAt;
    var slot := PathOf(page, depth + 1);
    DepthOfPath(a, n);
    DepthOfPath(page, depth + 1);
    BelowOnPath(a, n, slot);
    SamePath(a, page, depth);
  }

  lemma SamePathUp(a: bv64, b: bv64, m: nat, n: nat)
    requires m <= n <= 4 && PathOf(a, n) == PathOf(b, n)
    ensures PathOf(a, m) == PathOf(b, m)
  {
    hide Index;
    if m < n {
      SamePathUp(a, b, m, n - 1);
    }
  }

  /** Writing a leaf changes what its page translates to, and no other address. */
  lemma WrittenPage(mem: Memory, tree: Tree, mem': Memory, tree': Tree, page: bv64, depth: nat, w: bv64)
    requires 0 < depth <= LAST && NoLargerPage(mem, tree, page, depth)
    requires LeafWritten(mem, tree, mem', tree', PathOf(page, depth + 1), w)
    ensures PageWritten(mem, tree, mem', tree', page, depth, w)
  {
    forall a
      ensures LookupAt(mem', tree', a) ==
              if InPage(a, page, depth) then Written(w, a, depth) else LookupAt(mem, tree, a)
    {
      WrittenAddress(mem, tree, mem', tree', page, depth, w, a);
    }
  }

  lemma WrittenAddress(mem: Memory, tree: Tree, mem': Memory, tree': Tree, page: bv64, depth: nat, w: bv64, a: bv64)
    requires 0 < depth <= LAST && NoLargerPage(mem, tree, page, depth)
    requires LeafWritten(mem, tree, mem', tree', PathOf(page, depth + 1), w)
    ensures LookupAt(mem', tree', a) ==
            if InPage(a, page, depth) then Written(w, a, depth) else LookupAt(mem, tree, a)
  {
    hide Index, InPage, LeafAt, FirstOf, Written, LeafWritten, PathOf, IsEmpty;
    LeafOnPath(mem, tree, mem', tree', page, depth, w, a, 2);
    LeafOnPath(mem, tree, mem', tree', page, depth, w, a, 3);
    LeafOnPath(mem, tree, mem', tree', page, depth, w, a, 4);
    if InPage(a, page, depth) {
      SamePageSamePaths(a, page, depth);
      FirstIsWritten(LeafAt(mem', tree', PathOf(a, 2)), LeafAt(mem', tree', PathOf(a, 3)),
                     LeafAt(mem', tree', PathOf(a, 4)), a, depth, w);
    }
  }

  lemma FirstIsWritten(w1: bv64, w2: bv64, w3: bv64, a: bv64, depth: nat, w: bv64)
    requires depth == 1 ==> w1 == w && w2 == 0 && w3 == 0
    requires depth == 2 ==> IsEmpty(w1) && w2 == w && w3 == 0
    requires depth == 3 ==> IsEmpty(w1) && IsEmpty(w2) && w3 == w
    requires 0 < depth <= LAST
    ensures FirstOf(w1, w2, w3, a) == Written(w, a, depth)
  {
    hide Target;
  }

  lemma SamePageSamePaths(a: bv64, b: bv64, depth: nat)
    requires depth <= LAST && InPage(a, b, depth)
    ensures depth > 1 ==> PathOf(a, 2) == PathOf(b, 2)
    ensures depth > 2 ==> PathOf(a, 3) == PathOf(b, 3)
  {
    hide Index, InPage, PathOf;
    SamePath(a, b, depth);
    if depth > 1 {
      SamePathUp(a, b, 2, depth + 1);
      SamePathUp(a, b, 3, depth + 1);
    }
  }

  lemma SameLeavesSameLookup(mem: Memory, tree: Tree, mem': Memory, tree': Tree)
    requires SameLeaves(mem, tree, mem', tree')
    ensures forall a :: LookupAt(mem', tree', a) == LookupAt(mem, tree, a)
  {
    hide Target, Index, LeafAt, PathOf;
  }

  // ---- the plain map decides the tables ----

  /** Under every table of a populated tree there is a page. */
  lemma {:induction false} PageUnder(mem: Memory, tree: Tree, p: Path) returns (s: Path)
    requires IsTree(mem, tree) && Populated(mem, tree, Root) && p in tree && p != Root
    ensures s.Step? && s != p && Below(s.parent, p) && !IsEmpty(LeafAt(mem, tree, s))
    decreases LAST - Depth(p)
  {
    hide Separate, Linked, Pointed, Sound;
    var i: nat :| !IsEmpty(WordAt(mem, tree, p, i));
    if Step(p, i) in tree {
      assert Depth(Step(p, i)) == Depth(p) + 1;
      s := PageUnder(mem, tree, Step(p, i));
      BelowStep(s.parent, p, i);
    } else {
      s := Step(p, i);
    }
  }

  lemma {:induction false} BelowStep(s: Path, p: Path, i: nat)
    requires Below(s, Step(p, i))
    ensures Below(s, p) && s != p
  {
    BelowIsDeeper(s, Step(p, i));
    assert Depth(Step(p, i)) == Depth(p) + 1;
    if s != Step(p, i) {
      BelowStep(s.parent, p, i);
    }
  }

  lemma TablesFollowPages(mem: Memory, tree: Tree, mem': Memory, tree': Tree)
    requires IsTree(mem, tree) && Populated(mem, tree, Root)
    requires IsTree(mem', tree') && SameLeaves(mem, tree, mem', tree')
    ensures tree.Keys <= tree'.Keys
  {
    hide Separate, Linked, Pointed, Sound, Populated;
    forall p | p in tree
      ensures p in tree'
    {
      if p != Root {
        var s := PageUnder(mem, tree, p);
        assert !IsEmpty(LeafAt(mem', tree', s));
        AncestorsInTree(mem', tree', s.parent, p);
      }
    }
  }

  /** Trees with the same plain map and no empty tables have the same tables. */
  lemma SamePagesSameTables(mem: Memory, tree: Tree, mem': Memory, tree': Tree)
    requires IsTree(mem, tree) && Populated(mem, tree, Root)
    requires IsTree(mem', tree') && Populated(mem', tree', Root)
    requires SameLeaves(mem, tree, mem', tree')
    ensures tree.Keys == tree'.Keys
  {
    hide IsTree, Populated, LeafAt;
    TablesFollowPages(mem, tree, mem', tree');
    TablesFollowPages(mem', tree', mem, tree);
  }

  // ---- the frames of the tables ----

  lemma FramesAfterHang(tree: Tree, slot: Path, f: Frame)
    requires slot !in tree
    ensures tree[slot := f].Values == tree.Values + {f}
  {
    var tree' := tree[slot := f];
    assert tree'[slot] == f;
    assert forall q :: q in tree ==> tree'[q] == tree[q];
  }

  lemma FramesAfterTakeOut(tree: Tree, q: Path)
    requires Separate(tree) && q in tree
    ensures (tree - {q}).Values == tree.Values - {tree[q]}
  {
    var tree' := tree - {q};
    assert forall r :: r in tree && r != q ==> r in tree' && tree'[r] == tree[r];
  }

  /** The frames of the tables that an entry leads to. */
  ghost function FramesBelow(tree: Tree, slot: Path): set<Frame>
  {
    set q | q in tree && Below(q, slot) :: tree[q]
  }

  lemma FramesAfterCut(tree: Tree, slot: Path)
    requires Separate(tree)
    ensures Cut(tree, slot).Values == tree.Values - FramesBelow(tree, slot)
  {
    var tree' := Cut(tree, slot);
    assert forall q :: q in tree' ==> q in tree && tree'[q] == tree[q];
    forall f | f in tree.Values && f !in FramesBelow(tree, slot)
      ensures f in tree'.Values
    {
      var q :| q in tree && tree[q] == f;
      assert tree'[q] == f;
    }
  }

  lemma {:induction false} NothingToCut(mem: Memory, tree: Tree, slot: Path)
    requires Shaped(mem, tree) && slot !in tree
    ensures Cut(tree, slot) == tree && FramesBelow(tree, slot) == {}
  {
    forall q | q in tree
      ensures !Below(q, slot)
    {
      if Below(q, slot) {
        AncestorsInTree(mem, tree, q, slot);
      }
    }
  }
}
