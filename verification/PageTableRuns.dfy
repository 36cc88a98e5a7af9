/**
 Whole runs of the page table with pages of 4 KB: the tables are always exactly those the mapped pages need.
 */
module PageTableRuns {
  import opened Options
  import opened PageTableEntry
  import opened PageTree
  import opened PageTranslation
  import opened PageTable

  datatype Tables = Tables(mem: Memory, tree: Tree, free: set<Frame>)

  datatype Event =
    | MapPage(page: bv64, frame: bv64, flags: bv64)
    | UnmapPage(page: bv64, depth: nat)

  /** One successful call of `Map` for a 4 KB page, or of `Unmap` that gives tables back as such. */
  ghost predicate Moves(s: Tables, e: Event, s': Tables)
  {
    match e
    case MapPage(page, frame, flags) =>
      && IsFrame(frame) && FlagsAllowed(flags, LAST)
      && MapDone(s.mem, s.tree, s.free, s'.mem, s'.tree, s'.free, page, LAST, EntryFor(frame, flags, LAST))
    case UnmapPage(page, depth) =>
      0 < depth <= LAST && UnmapDone(s.mem, s.tree, s.free, s'.mem, s'.tree, s'.free, page, depth)
  }

  function WriteOf(e: Event): Write
  {
    match e
    case MapPage(page, frame, flags) => Write(page, LAST, EntryFor(frame, flags, LAST))
    case UnmapPage(page, depth) => Write(page, depth, 0)
  }

  function WritesOf(events: seq<Event>): seq<Write>
  {
    if events == [] then [] else WritesOf(events[..|events| - 1]) + [WriteOf(events[|events| - 1])]
  }

  /** `states` are what the tables go through on `events`, from a new page table at `root`. */
  ghost predicate Run(states: seq<Tables>, events: seq<Event>, root: Frame)
  {
    && |states| == |events| + 1
    && states[0].tree == map[Root := root] && root in states[0].mem && states[0].mem[root] == EmptyTable()
    && Pool(states[0].tree, states[0].free)
    && forall i :: 0 <= i < |events| ==> Moves(states[i], events[i], states[i + 1])
  }

  /** Every table but the root has an entry, and the frames of tables and pool are those of the start. */
  ghost predicate Sound4K(s: Tables, root: Frame, frames: set<Frame>)
  {
    && IsTree(s.mem, s.tree) && Root in s.tree && s.tree[Root] == root && Pool(s.tree, s.free)
    && Populated(s.mem, s.tree, Root) && s.free + s.tree.Values == frames
  }

  lemma MoveKeeps(s: Tables, e: Event, s': Tables, root: Frame, frames: set<Frame>, writes: seq<Write>)
    requires Sound4K(s, root, frames) && Moves(s, e, s') && Refines(s.mem, s.tree, writes)
    ensures Sound4K(s', root, frames) && Refines(s'.mem, s'.tree, writes + [WriteOf(e)])
  {
    hide Separate, Linked, Pointed, Sound, Pool, LeafWritten, PageWritten, Refines, Populated, FramesBelow, EntryFor,
      FlagsAllowed, IsFrame, IsEmpty;
    match e
    case MapPage(page, frame, flags) =>
      var w := EntryFor(frame, flags, LAST);
      EntryForPage(frame, flags, LAST);
      SmallPageKeepsFrames(s.mem, s.tree, s.free, s'.tree, s'.free, page);
      WriteRefines(s.mem, s.tree, s'.mem, s'.tree, writes, Write(page, LAST, w));
    case UnmapPage(page, depth) =>
      WriteRefines(s.mem, s.tree, s'.mem, s'.tree, writes, Write(page, depth, 0));
  }

  /** In every state of every run: no table but the root is empty, the frames held as tables are exactly those
      that the pointers in memory reach, tables and pool keep their frames, and every address translates as the
      last write to its page says. */
  lemma {:induction false} RunInvariant(states: seq<Tables>, events: seq<Event>, root: Frame)
    requires Run(states, events, root)
    ensures Sound4K(states[|events|], root, states[0].free + {root})
    ensures Refines(states[|events|].mem, states[|events|].tree, WritesOf(events))
  {
    hide Sound4K, Refines, Moves;
    if events == [] {
      StartIsSound(states[0], root);
    } else {
      var k := |events| - 1;
      RunInvariant(states[..k + 1], events[..k], root);
      MoveKeeps(states[k], events[k], states[k + 1], root, states[0].free + {root}, WritesOf(events[..k]));
    }
  }

  lemma StartIsSound(s: Tables, root: Frame)
    requires s.tree == map[Root := root] && root in s.mem && s.mem[root] == EmptyTable() && Pool(s.tree, s.free)
    ensures Sound4K(s, root, s.free + {root}) && Refines(s.mem, s.tree, [])
  {
    hide IsTree, Refines, Populated, Pool;
    NewTree(s.mem, s.tree, root);
    assert s.tree[Root] == root;
    assert s.tree.Values == {root};
  }

  /** So the frames of tables are those found by following pointers, and each is found on one path only. */
  lemma TablesAreReachable(s: Tables, root: Frame, frames: set<Frame>, f: Frame)
    requires Sound4K(s, root, frames)
    ensures f in s.tree.Values <==> exists p :: Reach(s.mem, root, p) == Some(f)
    ensures forall p, q :: Reach(s.mem, root, p) == Some(f) && Reach(s.mem, root, q) == Some(f) ==> p == q
  {
    hide Shaped, Linked, Pointed, Sound, Pool, Populated, Reach;
    forall p
      ensures Reach(s.mem, root, p) == if p in s.tree then Some(s.tree[p]) else None
    {
      TreeIsReachable(s.mem, s.tree, root, p);
    }
    if f in s.tree.Values {
      var p :| p in s.tree && s.tree[p] == f;
      assert Reach(s.mem, root, p) == Some(f);
    }
  }

  /** Two runs that leave the same pages mapped leave the same tables, in whatever frames. */
  lemma SamePagesSameTablesInRuns(states: seq<Tables>, events: seq<Event>, others: seq<Tables>, more: seq<Event>,
                                  root: Frame, top: Frame)
    requires Run(states, events, root) && Run(others, more, top)
    requires SameLeaves(states[|events|].mem, states[|events|].tree, others[|more|].mem, others[|more|].tree)
    ensures states[|events|].tree.Keys == others[|more|].tree.Keys
  {
    hide Moves, SameLeaves, Refines, IsTree, Populated;
    RunInvariant(states, events, root);
    RunInvariant(others, more, top);
    var s, o := states[|events|], others[|more|];
    SamePagesSameTables(s.mem, s.tree, o.mem, o.tree);
  }
}
