/**
 The RAM file system: a tree of directories with files and mount points at its leaves. `insert` and `mount`
 put a leaf at a path and make the directories on the way; `get` finds what is at a path.
 */
module RamFs {
  import opened Options
  import opened Paths

  datatype Entry =
    | FileEntry(data: seq<bv8>)
    | DirEntry(entries: map<string, Entry>)
    | MountEntry(key: nat)

  // ---- paths ----

  /** `split_once('/')`, with an empty rest when there is no slash. */
  function SplitOnce(path: string): (string, string)
  {
    if path == "" then ("", "")
    else if path[0] == '/' then ("", path[1..])
    else var (name, rest) := SplitOnce(path[1..]); ([path[0]] + name, rest)
  }

  lemma {:induction false} RestIsShorter(path: string)
    ensures |SplitOnce(path).1| <= |path| && (SplitOnce(path).1 != "" ==> |SplitOnce(path).1| < |path|)
  {
    if path != "" && path[0] != '/' {
      RestIsShorter(path[1..]);
    }
  }

  /** The components a path is taken apart into: one slash at the end adds none. */
  function Components(path: string): (r: seq<string>)
    ensures r != []
    decreases |path|
  {
    RestIsShorter(path);
    var (name, rest) := SplitOnce(path);
    [name] + if rest == "" then [] else Components(rest)
  }

  lemma {:induction false} SplitOnceAtSlash(x: string, y: string)
    requires '/' !in x
    ensures SplitOnce(x + "/" + y) == (x, y) && SplitOnce(x) == (x, "")
  {
    var s := x + "/" + y;
    if x == "" {
      assert s[0] == '/' && s[1..] == y;
    } else {
      assert s[0] == x[0] && s[1..] == x[1..] + "/" + y;
      SplitOnceAtSlash(x[1..], y);
      assert x == [x[0]] + x[1..];
    }
  }

  /** A component ends at a slash, and the rest follows if there is any. */
  lemma ComponentsConcat(x: string, y: string)
    requires '/' !in x
    ensures Components(x) == Components(x + "/") == [x]
    ensures y != "" ==> Components(x + "/" + y) == [x] + Components(y)
  {
    SplitOnceAtSlash(x, y);
    SplitOnceAtSlash(x, "");
    assert x + "/" + "" == x + "/";
  }

  /** The components are the segments between the slashes, empty ones included, of the path without a slash at
      its end. */
  lemma {:induction false} ComponentsAreSplit(path: string)
    ensures Components(path) == Split(StripSuffix(path))
    decreases |path|
  {
    hide SplitOnce;
    if '/' in path {
      var (x, y) := FirstSlash(path);
      ComponentsConcat(x, y);
      if y == "" {
        assert path == x + "/";
        assert StripSuffix(path) == x;
        SplitName(x);
      } else {
        ComponentsAreSplit(y);
        assert StripSuffix(path) == x + "/" + StripSuffix(y);
        SplitConcat(x, StripSuffix(y));
        SplitName(x);
      }
    } else {
      ComponentsConcat(path, "");
      SplitName(path);
    }
  }

  ghost function FirstSlash(path: string): (r: (string, string))
    requires '/' in path
    ensures '/' !in r.0 && path == r.0 + "/" + r.1
  {
    if path[0] == '/' then ("", path[1..])
    else var (x, y) := FirstSlash(path[1..]); ([path[0]] + x, y)
  }

  // ---- the tree by components ----

  function At(entries: map<string, Entry>, names: seq<string>): Option<Entry>
    decreases names
  {
    if names == [] then Some(DirEntry(entries))
    else if names[0] !in entries then None
    else if |names| == 1 then Some(entries[names[0]])
    else if entries[names[0]].DirEntry? then At(entries[names[0]].entries, names[1..])
    else None
  }

  function Get(entries: map<string, Entry>, path: string): Option<Entry>
    decreases |path|
  {
    RestIsShorter(path);
    var (name, rest) := SplitOnce(path);
    if name !in entries then None
    else if rest == "" then Some(entries[name])
    else if entries[name].DirEntry? then Get(entries[name].entries, rest)
    else None
  }

  /** The directory of that name, empty if there is none yet. */
  function DirOf(entries: map<string, Entry>, name: string): Entry
  {
    if name in entries then entries[name] else DirEntry(map[])
  }

  /** `insert` or `mount` of a leaf; none where the source panics. */
  function Put(entries: map<string, Entry>, path: string, leaf: Entry): Option<map<string, Entry>>
    decreases |path|
  {
    RestIsShorter(path);
    var (name, rest) := SplitOnce(path);
    if rest == "" then
      if name in entries then None else Some(entries[name := leaf])
    else
      var dir := DirOf(entries, name);
      if !dir.DirEntry? then None
      else
        match Put(dir.entries, rest, leaf)
        case None => None
        case Some(inner) => Some(entries[name := DirEntry(inner)])
  }

  function PutAt(entries: map<string, Entry>, names: seq<string>, leaf: Entry): Option<map<string, Entry>>
    requires names != []
    decreases names
  {
    if |names| == 1 then
      if names[0] in entries then None else Some(entries[names[0] := leaf])
    else
      var dir := DirOf(entries, names[0]);
      if !dir.DirEntry? then None
      else
        match PutAt(dir.entries, names[1..], leaf)
        case None => None
        case Some(inner) => Some(entries[names[0] := DirEntry(inner)])
  }

  lemma {:induction false} GetByComponents(entries: map<string, Entry>, path: string)
    ensures Get(entries, path) == At(entries, Components(path))
    decreases |path|
  {
    RestIsShorter(path);
    var (name, rest) := SplitOnce(path);
    if rest != "" {
      assert Components(path)[1..] == Components(rest);
      if name in entries && entries[name].DirEntry? {
        GetByComponents(entries[name].entries, rest);
      }
    }
  }

  lemma {:induction false} PutByComponents(entries: map<string, Entry>, path: string, leaf: Entry)
    ensures Put(entries, path, leaf) == PutAt(entries, Components(path), leaf)
    decreases |path|
  {
    RestIsShorter(path);
    var (name, rest) := SplitOnce(path);
    if rest != "" {
      assert Components(path)[1..] == Components(rest);
      var dir := DirOf(entries, name);
      if dir.DirEntry? {
        PutByComponents(dir.entries, rest, leaf);
      }
    }
  }

  // ---- the law of the tree ----

  predicate ProperPrefix(q: seq<string>, p: seq<string>)
  {
    q < p
  }

  /** Nothing but directories on the way, and nothing at the path itself. */
  ghost predicate Vacant(entries: map<string, Entry>, names: seq<string>)
  {
    && At(entries, names) == None
    && forall q :: ProperPrefix(q, names) && At(entries, q).Some? ==> At(entries, q).value.DirEntry?
  }

  /** Inside a directory the rest of the path leads where the whole path leads. */
  lemma AtInside(entries: map<string, Entry>, q: seq<string>)
    requires |q| > 1 && DirOf(entries, q[0]).DirEntry?
    ensures At(entries, q) == At(DirOf(entries, q[0]).entries, q[1..])
  {
  }

  lemma PrefixInside(q: seq<string>, p: seq<string>)
    requires q != [] && p != [] && q[0] == p[0]
    ensures (ProperPrefix(q, p) <==> ProperPrefix(q[1..], p[1..])) && (q == p <==> q[1..] == p[1..])
  {
    assert q == [q[0]] + q[1..] && p == [p[0]] + p[1..];
  }

  lemma VacantInside(entries: map<string, Entry>, names: seq<string>)
    requires |names| > 1
    ensures Vacant(entries, names) <==>
            DirOf(entries, names[0]).DirEntry? && Vacant(DirOf(entries, names[0]).entries, names[1..])
  {
    var n, rest, dir := names[0], names[1..], DirOf(entries, names[0]);
    assert names == [n] + rest;
    if Vacant(entries, names) {
      assert ProperPrefix([n], names);
      assert dir.DirEntry?;
      AtInside(entries, names);
      forall q | ProperPrefix(q, rest) && At(dir.entries, q).Some?
        ensures At(dir.entries, q).value.DirEntry?
      {
        if q != [] {
          var whole := [n] + q;
          assert whole[1..] == q;
          PrefixInside(whole, names);
          AtInside(entries, whole);
        }
      }
    }
    if dir.DirEntry? && Vacant(dir.entries, rest) {
      AtInside(entries, names);
      forall q | ProperPrefix(q, names) && At(entries, q).Some?
        ensures At(entries, q).value.DirEntry?
      {
        if |q| > 1 {
          PrefixInside(q, names);
          AtInside(entries, q);
        }
      }
    }
  }

  lemma {:induction false} PutSucceeds(entries: map<string, Entry>, names: seq<string>, leaf: Entry)
    requires names != []
    ensures PutAt(entries, names, leaf).Some? <==> Vacant(entries, names)
    decreases names
  {
    if |names| == 1 {
      forall q | ProperPrefix(q, names)
        ensures q == []
      {
      }
    } else {
      VacantInside(entries, names);
      if DirOf(entries, names[0]).DirEntry? {
        PutSucceeds(DirOf(entries, names[0]).entries, names[1..], leaf);
      }
    }
  }

  /** What is at a path after a leaf has been put at another. */
  ghost predicate AfterPut(entries: map<string, Entry>, entries': map<string, Entry>, names: seq<string>,
                           leaf: Entry, q: seq<string>)
  {
    if q == names then At(entries', q) == Some(leaf)
    else if ProperPrefix(q, names) then At(entries', q).Some? && At(entries', q).value.DirEntry?
    else At(entries', q) == At(entries, q)
  }

  /** After a leaf is put at a path, the leaf is there, directories are on the way and all else is as before. */
  lemma {:induction false} PutThenAt(entries: map<string, Entry>, names: seq<string>, leaf: Entry, q: seq<string>)
    requires names != [] && !leaf.DirEntry? && PutAt(entries, names, leaf).Some?
    ensures AfterPut(entries, PutAt(entries, names, leaf).value, names, leaf, q)
    decreases names
  {
    var entries' := PutAt(entries, names, leaf).value;
    if q != [] && q[0] == names[0] {
      PrefixInside(q, names);
      if |names| > 1 && |q| > 1 {
        PutThenAt(DirOf(entries, names[0]).entries, names[1..], leaf, q[1..]);
        AtInside(entries, q);
        AtInside(entries', q);
      }
    }
  }

  /** The law on paths: `insert` succeeds exactly on vacant paths, and then `get` finds the leaf on every path
      with the same components, a directory on every path to it, and elsewhere what it found before. */
  lemma PutThenGet(entries: map<string, Entry>, path: string, leaf: Entry, q: string)
    requires !leaf.DirEntry?
    ensures Put(entries, path, leaf).Some? <==> Vacant(entries, Components(path))
    ensures Put(entries, path, leaf).Some? ==>
              var entries' := Put(entries, path, leaf).value;
              if Components(q) == Components(path) then Get(entries', q) == Some(leaf)
              else if ProperPrefix(Components(q), Components(path)) then
                Get(entries', q).Some? && Get(entries', q).value.DirEntry?
              else Get(entries', q) == Get(entries, q)
  {
    PutByComponents(entries, path, leaf);
    PutSucceeds(entries, Components(path), leaf);
    GetByComponents(entries, q);
    if Put(entries, path, leaf).Some? {
      GetByComponents(Put(entries, path, leaf).value, q);
      PutThenAt(entries, Components(path), leaf, Components(q));
    }
  }

  // ---- whole runs ----

  datatype Insertion = Insertion(names: seq<string>, leaf: Entry)

  /** `trees` are what a file system goes through, from empty, on these insertions. */
  ghost predicate Run(trees: seq<map<string, Entry>>, puts: seq<Insertion>)
  {
    && |trees| == |puts| + 1 && trees[0] == map[]
    && forall i :: 0 <= i < |puts| ==>
         && puts[i].names != [] && !puts[i].leaf.DirEntry?
         && PutAt(trees[i], puts[i].names, puts[i].leaf) == Some(trees[i + 1])
  }

  /** After every run the tree holds, at any path, the leaf inserted there, a directory if a leaf was inserted
      below, and else nothing. */
  lemma {:induction false} RunHolds(trees: seq<map<string, Entry>>, puts: seq<Insertion>, q: seq<string>)
    requires Run(trees, puts) && q != []
    ensures var r := At(trees[|puts|], q);
            && (forall i :: 0 <= i < |puts| && puts[i].names == q ==> r == Some(puts[i].leaf))
            && (forall i :: 0 <= i < |puts| && ProperPrefix(q, puts[i].names) ==> r.Some? && r.value.DirEntry?)
            && ((forall i :: 0 <= i < |puts| ==> puts[i].names != q && !ProperPrefix(q, puts[i].names)) ==> r == None)
  {
    if puts != [] {
      var k := |puts| - 1;
      RunHolds(trees[..k + 1], puts[..k], q);
      assert PutAt(trees[k], puts[k].names, puts[k].leaf) == Some(trees[k + 1]);
      PutSucceeds(trees[k], puts[k].names, puts[k].leaf);
      PutThenAt(trees[k], puts[k].names, puts[k].leaf, q);
    }
  }

  // ---- the file system ----

  function Lookup(root: map<string, Entry>, path: string): Option<Entry>
    requires IsAbsolute(path)
  {
    if path[1..] == "" then Some(DirEntry(root)) else Get(root, path[1..])
  }

  /** The file system finds what was inserted, by the path it was inserted at, unless that is the root's. */
  lemma InsertThenLookup(root: map<string, Entry>, path: string, leaf: Entry)
    requires IsAbsolute(path) && !leaf.DirEntry? && Put(root, path[1..], leaf).Some?
    ensures Lookup(Put(root, path[1..], leaf).value, path) == Some(leaf) <==> path != "/"
  {
    PutThenGet(root, path[1..], leaf, path[1..]);
    assert path == [path[0]] + path[1..];
  }

  /** A leaf inserted at the root path of an empty file system is not found there. */
  lemma RootPathIsNotFound(leaf: Entry)
    requires !leaf.DirEntry?
    ensures IsAbsolute("/") && Put(map[], "/"[1..], leaf).Some?
    ensures Lookup(Put(map[], "/"[1..], leaf).value, "/") != Some(leaf)
  {
    assert "/"[1..] == "";
    assert SplitOnce("") == ("", "");
  }

  class RamFs {
    var root: map<string, Entry>

    constructor ()
      ensures root == map[]
    {
      root := map[];
    }

    method GetEntry(path: string) returns (r: Option<Entry>)
      requires IsAbsolute(path)
      ensures r == Lookup(root, path)
      ensures r == if path == "/" then Some(DirEntry(root)) else At(root, Components(path[1..]))
    {
      var rest := path[1..];
      assert path == [path[0]] + rest;
      if rest == "" {
        return Some(DirEntry(root));
      }
      GetByComponents(root, rest);
      return Get(root, rest);
    }

    /** Puts a file or a mount point at a path; fails, where the source panics, exactly when the path is not
        vacant, and then nothing has changed. */
    method Insert(path: string, leaf: Entry) returns (ok: bool)
      requires IsAbsolute(path) && !leaf.DirEntry?
      modifies this
      ensures ok <==> Vacant(old(root), Components(path[1..]))
      ensures !ok ==> root == old(root)
      ensures ok ==> forall q :: AfterPut(old(root), root, Components(path[1..]), leaf, q)
    {
      var rest := path[1..];
      PutByComponents(root, rest, leaf);
      PutSucceeds(root, Components(rest), leaf);
      var r := Put(root, rest, leaf);
      if r.None? {
        return false;
      }
      ghost var before := root;
      root := r.value;
      forall q
        ensures AfterPut(before, root, Components(rest), leaf, q)
      {
        PutThenAt(before, Components(rest), leaf, q);
      }
      return true;
    }
  }
}
