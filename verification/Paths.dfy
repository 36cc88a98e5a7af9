/** Paths as strings: absolute ones, and splitting and joining at the slashes. */
module Paths {
  predicate IsAbsolute(s: string)
  {
    s != "" && s[0] == '/'
  }

  /** `strip_suffix("/")`, or the string itself. */
  function StripSuffix(s: string): string
  {
    if s != "" && s[|s| - 1] == '/' then s[..|s| - 1] else s
  }

  function Prepend(c: char, rest: seq<string>): seq<string>
    requires rest != []
  {
    if c == '/' then [""] + rest else [[c] + rest[0]] + rest[1..]
  }

  /** `split("/")`: the segments between the slashes, empty ones included. */
  function Split(s: string): (r: seq<string>)
    ensures r != []
  {
    if s == "" then [""] else Prepend(s[0], Split(s[1..]))
  }

  function Join(segments: seq<string>): string
  {
    if segments == [] then ""
    else if |segments| == 1 then segments[0]
    else segments[0] + "/" + Join(segments[1..])
  }

  function NonEmpty(segments: seq<string>): seq<string>
  {
    if segments == [] then []
    else if segments[0] == "" then NonEmpty(segments[1..])
    else [segments[0]] + NonEmpty(segments[1..])
  }

  /** The segments of a path that name something. */
  function Segments(s: string): seq<string>
  {
    NonEmpty(Split(s))
  }

  lemma PrependConcat(c: char, x: seq<string>, y: seq<string>)
    requires x != []
    ensures Prepend(c, x + y) == Prepend(c, x) + y
  {
    if c == '/' {
      assert [""] + (x + y) == ([""] + x) + y;
    } else {
      assert (x + y)[0] == x[0] && (x + y)[1..] == x[1..] + y;
      assert [[c] + x[0]] + (x[1..] + y) == ([[c] + x[0]] + x[1..]) + y;
    }
  }

  lemma {:induction false} SplitConcat(x: string, y: string)
    ensures Split(x + "/" + y) == Split(x) + Split(y)
  {
    hide Prepend;
    var s := x + "/" + y;
    if x == "" {
      assert s[0] == '/' && s[1..] == y;
      PrependSlash(Split(y));
    } else {
      assert s[0] == x[0] && s[1..] == x[1..] + "/" + y;
      SplitConcat(x[1..], y);
      PrependConcat(x[0], Split(x[1..]), Split(y));
    }
  }

  lemma PrependSlash(rest: seq<string>)
    requires rest != []
    ensures Prepend('/', rest) == [""] + rest
  {
  }

  lemma {:induction false} NonEmptyConcat(x: seq<string>, y: seq<string>)
    ensures NonEmpty(x + y) == NonEmpty(x) + NonEmpty(y)
  {
    var z := x + y;
    if x == [] {
      assert z == y;
    } else {
      assert z[0] == x[0] && z[1..] == x[1..] + y;
      NonEmptyConcat(x[1..], y);
      Associative([x[0]], NonEmpty(x[1..]), NonEmpty(y));
    }
  }

  lemma Associative<T>(x: seq<T>, y: seq<T>, z: seq<T>)
    ensures x + (y + z) == (x + y) + z
  {
  }

  lemma SegmentsConcat(x: string, y: string)
    ensures Segments(x + "/" + y) == Segments(x) + Segments(y)
  {
    SplitConcat(x, y);
    NonEmptyConcat(Split(x), Split(y));
  }

  lemma {:induction false} JoinSplit(s: string)
    ensures Join(Split(s)) == s
  {
    if s != "" {
      JoinSplit(s[1..]);
      var rest := Split(s[1..]);
      if s[0] == '/' {
        assert ([""] + rest)[1..] == rest;
      } else {
        assert ([[s[0]] + rest[0]] + rest[1..])[1..] == rest[1..];
      }
    }
  }

  /** A name: not empty and without a slash. */
  predicate IsName(x: string)
  {
    x != "" && '/' !in x
  }

  ghost predicate AreNames(segments: seq<string>)
  {
    forall x :: x in segments ==> IsName(x)
  }

  lemma {:induction false} SplitName(x: string)
    requires '/' !in x
    ensures Split(x) == [x]
  {
    if x != "" {
      SplitName(x[1..]);
      assert x == [x[0]] + x[1..];
    }
  }

  lemma SegmentsOfName(x: string)
    requires IsName(x)
    ensures Segments(x) == [x]
  {
    SplitName(x);
    assert NonEmpty([x]) == [x] + NonEmpty([]);
  }

  /** Names joined come apart again. */
  lemma {:induction false} SegmentsJoin(segments: seq<string>)
    requires AreNames(segments)
    ensures Segments(Join(segments)) == segments
  {
    hide IsName, Segments;
    if segments == [] {
      NoSegments();
    } else {
      var x, rest := segments[0], segments[1..];
      assert x in segments;
      SegmentsOfName(x);
      assert segments == [x] + rest;
      if rest != [] {
        SegmentsJoin(rest);
        SegmentsConcat(x, Join(rest));
      }
    }
  }

  lemma NoSegments()
    ensures Segments("") == []
  {
  }

  lemma {:induction false} SplitHasNoSlash(s: string)
    ensures forall x :: x in Split(s) ==> '/' !in x
  {
    if s != "" {
      SplitHasNoSlash(s[1..]);
    }
  }

  lemma {:induction false} NonEmptyIsSubset(segments: seq<string>)
    ensures forall x :: x in NonEmpty(segments) <==> x in segments && x != ""
  {
    if segments != [] {
      NonEmptyIsSubset(segments[1..]);
    }
  }

  lemma SegmentsAreNames(s: string)
    ensures AreNames(Segments(s))
  {
    SplitHasNoSlash(s);
    NonEmptyIsSubset(Split(s));
  }
}
