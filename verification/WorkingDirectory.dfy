/**
 The working directory of a process, and relative paths resolved against it.
 */
module WorkingDirectory {
  import opened Options
  import opened Paths

  datatype Result = Ok(path: string) | Err

  // ---- resolving a path ----

  /** The segments reached from `buf` by following `segments`; none above the root. */
  function Follow(buf: seq<string>, segments: seq<string>): Option<seq<string>>
    decreases segments
  {
    if segments == [] then Some(buf)
    else if segments[0] == "." then Follow(buf, segments[1..])
    else if segments[0] == ".." then
      if buf == [] then None else Follow(buf[..|buf| - 1], segments[1..])
    else Follow(buf + [segments[0]], segments[1..])
  }

  /** The path a path stands for in a working directory. */
  function Resolve(cwd: string, s: string): Result
    requires IsAbsolute(cwd)
  {
    if IsAbsolute(s) then Ok(s)
    else
      match Follow(Segments(cwd[1..]), Segments(s))
      case None => Err
      case Some(buf) => Ok("/" + Join(buf))
  }

  lemma StripSuffixSegments(s: string)
    ensures Segments(StripSuffix(s)) == Segments(s)
  {
    if s != "" && s[|s| - 1] == '/' {
      var t := s[..|s| - 1];
      assert s == t + "/" + "";
      SegmentsConcat(t, "");
      NoSegments();
    }
  }

  lemma {:induction false} FollowConcat(buf: seq<string>, x: seq<string>, y: seq<string>)
    ensures Follow(buf, x + y) ==
            match Follow(buf, x)
            case None => None
            case Some(next) => Follow(next, y)
    decreases x
  {
    if x == [] {
      assert x + y == y;
    } else {
      assert (x + y)[1..] == x[1..] + y;
      if x[0] == "." {
        FollowConcat(buf, x[1..], y);
      } else if x[0] == ".." {
        if buf != [] {
          FollowConcat(buf[..|buf| - 1], x[1..], y);
        }
      } else {
        FollowConcat(buf + [x[0]], x[1..], y);
      }
    }
  }

  lemma {:induction false} FollowKeepsNames(buf: seq<string>, segments: seq<string>)
    requires AreNames(buf) && AreNames(segments)
    ensures Follow(buf, segments).Some? ==> AreNames(Follow(buf, segments).value)
    decreases segments
  {
    if segments != [] {
      if segments[0] == "." {
        FollowKeepsNames(buf, segments[1..]);
      } else if segments[0] == ".." {
        if buf != [] {
          FollowKeepsNames(buf[..|buf| - 1], segments[1..]);
        }
      } else {
        FollowKeepsNames(buf + [segments[0]], segments[1..]);
      }
    }
  }

  /** What has been resolved against an absolute directory is an absolute path, whose segments are those reached. */
  lemma ResolvedSegments(cwd: string, s: string)
    requires IsAbsolute(cwd) && !IsAbsolute(s)
    ensures match Follow(Segments(cwd[1..]), Segments(s))
            case None => Resolve(cwd, s) == Err
            case Some(buf) =>
              && Resolve(cwd, s).Ok? && IsAbsolute(Resolve(cwd, s).path)
              && Segments(Resolve(cwd, s).path[1..]) == buf
  {
    SegmentsAreNames(cwd[1..]);
    SegmentsAreNames(s);
    FollowKeepsNames(Segments(cwd[1..]), Segments(s));
    match Follow(Segments(cwd[1..]), Segments(s))
    case None =>
    case Some(buf) =>
      SegmentsJoin(buf);
      assert ("/" + Join(buf))[1..] == Join(buf);
  }

  /** Resolving `a/b` is resolving `b` in the directory that `a` resolves to. */
  lemma ResolveComposes(cwd: string, a: string, b: string)
    requires IsAbsolute(cwd) && a != "" && !IsAbsolute(a) && !IsAbsolute(b)
    ensures match Resolve(cwd, a)
            case Err => Resolve(cwd, a + "/" + b) == Err
            case Ok(dir) => IsAbsolute(dir) && Resolve(cwd, a + "/" + b) == Resolve(dir, b)
  {
    SegmentsConcat(a, b);
    FollowConcat(Segments(cwd[1..]), Segments(a), Segments(b));
    ResolvedSegments(cwd, a);
  }

  /** An absolute path without empty segments, "." and "..". */
  ghost predicate IsNormal(path: string)
  {
    exists segments :: path == "/" + Join(segments) && AreNormal(segments)
  }

  ghost predicate AreNormal(segments: seq<string>)
  {
    AreNames(segments) && "." !in segments && ".." !in segments
  }

  lemma {:induction false} FollowIsNormal(buf: seq<string>, segments: seq<string>)
    requires AreNormal(buf) && AreNames(segments)
    ensures Follow(buf, segments).Some? ==> AreNormal(Follow(buf, segments).value)
    decreases segments
  {
    if segments != [] {
      if segments[0] == "." {
        FollowIsNormal(buf, segments[1..]);
      } else if segments[0] == ".." {
        if buf != [] {
          FollowIsNormal(buf[..|buf| - 1], segments[1..]);
        }
      } else {
        FollowIsNormal(buf + [segments[0]], segments[1..]);
      }
    }
  }

  /** From a normal directory a relative path resolves to a normal path. */
  lemma ResolveIsNormal(cwd: string, s: string)
    requires IsNormal(cwd) && !IsAbsolute(s)
    ensures IsAbsolute(cwd) && (Resolve(cwd, s).Ok? ==> IsNormal(Resolve(cwd, s).path))
  {
    var segments :| cwd == "/" + Join(segments) && AreNormal(segments);
    assert cwd[1..] == Join(segments);
    SegmentsJoin(segments);
    SegmentsAreNames(s);
    FollowIsNormal(segments, Segments(s));
  }

  /** A normal path is the one its segments join to: resolving "." keeps it. */
  lemma NormalIsFixed(cwd: string)
    requires IsNormal(cwd)
    ensures IsAbsolute(cwd) && Resolve(cwd, ".") == Ok(cwd)
  {
    var segments :| cwd == "/" + Join(segments) && AreNormal(segments);
    assert cwd[1..] == Join(segments);
    SegmentsJoin(segments);
    SegmentsOfName(".");
    assert Follow(segments, ["."]) == Follow(segments, []);
  }

  lemma SegmentsOfDirectory(p: seq<string>)
    requires AreNames(p)
    ensures IsAbsolute("/" + Join(p)) && Segments(("/" + Join(p))[1..]) == p
  {
    SegmentsJoin(p);
    assert ("/" + Join(p))[1..] == Join(p);
  }

  /** Where one segment leads: "." nowhere, ".." to the directory above, if there is one, and a name to the entry
      of that name. */
  lemma ResolveSegment(p: seq<string>, x: string)
    requires AreNames(p) && IsName(x)
    ensures IsAbsolute("/" + Join(p))
    ensures Resolve("/" + Join(p), x) ==
            if x == "." then Ok("/" + Join(p))
            else if x != ".." then Ok("/" + Join(p + [x]))
            else if p == [] then Err
            else Ok("/" + Join(p[..|p| - 1]))
  {
    SegmentsOfDirectory(p);
    SegmentsOfName(x);
    FollowSegment(p, x);
  }

  lemma FollowSegment(p: seq<string>, x: string)
    ensures Follow(p, [x]) ==
            if x == "." then Some(p)
            else if x != ".." then Some(p + [x])
            else if p == [] then None
            else Some(p[..|p| - 1])
  {
    assert [x][1..] == [];
  }

  /** A path of plain names leads down by these names. */
  lemma ResolveNames(p: seq<string>, names: seq<string>)
    requires AreNames(p) && AreNormal(names)
    ensures IsAbsolute("/" + Join(p)) && Resolve("/" + Join(p), Join(names)) == Ok("/" + Join(p + names))
  {
    SegmentsOfDirectory(p);
    SegmentsJoin(names);
    FollowNames(p, names);
    if names != [] {
      assert names[0] in names;
      assert Join(names)[0] == names[0][0] && names[0][0] in names[0];
    }
  }

  lemma {:induction false} FollowNames(buf: seq<string>, names: seq<string>)
    requires AreNormal(names)
    ensures Follow(buf, names) == Some(buf + names)
    decreases names
  {
    if names == [] {
      assert buf + names == buf;
    } else {
      assert names[0] in names;
      FollowNames(buf + [names[0]], names[1..]);
      assert buf + [names[0]] + names[1..] == buf + names;
    }
  }

  /** Down by a name and up again leads back. */
  lemma ResolveDownAndUp(p: seq<string>, x: string)
    requires AreNames(p) && IsName(x) && x != "." && x != ".."
    ensures IsAbsolute("/" + Join(p)) && Resolve("/" + Join(p), x + "/..") == Ok("/" + Join(p))
  {
    hide Resolve, Join;
    ResolveSegment(p, x);
    ResolveComposes("/" + Join(p), x, "..");
    ResolveSegment(p + [x], "..");
    assert x + "/" + ".." == x + "/..";
    assert (p + [x])[..|p + [x]| - 1] == p;
  }

  /** The working directory after `set_cwd`, if it succeeds, when these directories exist. */
  function Chdir(cwd: string, s: string, dirs: set<string>): Option<string>
    requires IsAbsolute(cwd)
  {
    match Resolve(cwd, s)
    case Err => None
    case Ok(path) => if path in dirs then Some(path) else None
  }

  /** Two changes of directory, one after the other, end where their composition does. */
  lemma ChdirComposes(cwd: string, a: string, b: string, dirs: set<string>)
    requires IsAbsolute(cwd) && a != "" && !IsAbsolute(a) && !IsAbsolute(b) && Chdir(cwd, a, dirs).Some?
    ensures var dir := Chdir(cwd, a, dirs).value;
            IsAbsolute(dir) && Chdir(dir, b, dirs) == Chdir(cwd, a + "/" + b, dirs)
  {
    ResolveComposes(cwd, a, b);
  }

  /** What a path stands for, for absolute paths, plain names and "..". */
  lemma Resolves(cwd: string, s: string)
    requires IsAbsolute(cwd)
    ensures IsAbsolute(s) ==> Resolve(cwd, s) == Ok(s)
    ensures forall p :: AreNames(p) && cwd == "/" + Join(p) && AreNormal(Segments(s)) && !IsAbsolute(s) ==>
              Resolve(cwd, s) == Ok("/" + Join(p + Segments(s)))
    ensures forall p :: AreNames(p) && cwd == "/" + Join(p) && s == ".." ==>
              Resolve(cwd, s) == if p == [] then Err else Ok("/" + Join(p[..|p| - 1]))
  {
    hide Join, AreNames, AreNormal, Segments;
    forall p | AreNames(p) && cwd == "/" + Join(p)
      ensures AreNormal(Segments(s)) && !IsAbsolute(s) ==> Resolve(cwd, s) == Ok("/" + Join(p + Segments(s)))
      ensures Resolve(cwd, "..") == if p == [] then Err else Ok("/" + Join(p[..|p| - 1]))
    {
      ResolveParent(p);
      SegmentsOfDirectory(p);
      if AreNormal(Segments(s)) {
        FollowNames(p, Segments(s));
      }
    }
  }

  lemma ResolveParent(p: seq<string>)
    requires AreNames(p)
    ensures IsAbsolute("/" + Join(p))
    ensures Resolve("/" + Join(p), "..") == if p == [] then Err else Ok("/" + Join(p[..|p| - 1]))
  {
    hide Join, Resolve;
    ResolveSegment(p, "..");
  }

  lemma ResolvesBySegments(cwd: string, s: string)
    requires IsAbsolute(cwd) && !IsAbsolute(s)
    ensures match Follow(Segments(cwd[1..]), Segments(s))
            case None => Resolve(cwd, s) == Err
            case Some(buf) => Resolve(cwd, s) == Ok("/" + Join(buf))
  {
  }

  lemma SegmentIsName(s: string, i: nat)
    requires i < |Segments(s)|
    ensures IsName(Segments(s)[i])
  {
    SegmentsAreNames(s);
  }

  class ProcData {
    var cwd: string

    /** What `strip_prefix` on the working directory demands. */
    predicate Valid()
      reads this
    {
      IsAbsolute(cwd)
    }

    constructor (dir: string)
      requires IsAbsolute(dir)
      ensures Valid() && cwd == dir
    {
      cwd := dir;
    }

    method Canonicalize(s: string) returns (r: Result)
      requires Valid()
      ensures r == Resolve(cwd, s)
      ensures IsAbsolute(s) ==> r == Ok(s)
      ensures forall p :: AreNames(p) && cwd == "/" + Join(p) && AreNormal(Segments(s)) && !IsAbsolute(s) ==>
                r == Ok("/" + Join(p + Segments(s)))
      ensures forall p :: AreNames(p) && cwd == "/" + Join(p) && s == ".." ==>
                r == if p == [] then Err else Ok("/" + Join(p[..|p| - 1]))
    {
      hide Join, AreNames, AreNormal, Resolve;
      Resolves(cwd, s);
      if IsAbsolute(s) {
        return Ok(s);
      }
      ResolvesBySegments(cwd, s);
      var t := StripSuffix(s);
      StripSuffixSegments(s);
      var buf := if IsAbsolute(t) then [] else Segments(cwd[1..]);
      var segments := Segments(t);
      var i := 0;
      while i < |segments|
        invariant 0 <= i <= |segments|
        invariant Follow(Segments(cwd[1..]), segments) == Follow(buf, segments[i..])
      {
        var seg := segments[i];
        SegmentIsName(t, i);
        assert segments[i..][0] == seg && segments[i..][1..] == segments[i + 1..];
        if seg == "." || seg == "" {
        } else if seg == ".." {
          if buf != [] {
            buf := buf[..|buf| - 1];
          } else {
            return Err;
          }
        } else {
          buf := buf + [seg];
        }
        i := i + 1;
      }
      return Ok("/" + Join(buf));
    }

    method SetCwd(s: string, dirs: set<string>) returns (ok: bool)
      requires Valid()
      modifies this
      ensures Valid()
      ensures ok <==> Resolve(old(cwd), s).Ok? && Resolve(old(cwd), s).path in dirs
      ensures cwd == if ok then Resolve(old(cwd), s).path else old(cwd)
      ensures Chdir(old(cwd), s, dirs) == if ok then Some(cwd) else None
    {
      var r := Canonicalize(s);
      if r.Err? || r.path !in dirs {
        return false;
      }
      if !IsAbsolute(s) {
        ResolvedSegments(cwd, s);
      }
      cwd := r.path;
      return true;
    }
  }
}
