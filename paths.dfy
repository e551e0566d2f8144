/**
 * The string and path operations the workspace script relies on:
 * `str.startswith`, `str.split`, `str.join`, `os.path.dirname` and
 * `os.path.relpath`, on the normalised relative paths a directory walk yields.
 */
module Paths {

  const Slash: char := '/'

  /** `s.startswith(prefix)`. */
  predicate StartsWith(s: string, prefix: string) {
    |prefix| <= |s| && s[..|prefix|] == prefix
  }

  lemma StartsWithTrans(a: string, b: string, c: string)
    requires StartsWith(a, b) && StartsWith(b, c)
    ensures StartsWith(a, c)
  {
    assert a[..|c|] == a[..|b|][..|c|];
  }

  /** `s.split(sep)`: the pieces between separators, always at least one. */
  function Split(s: string, sep: char): (parts: seq<string>)
    ensures |parts| >= 1
    decreases |s|
  {
    if s == [] then [""]
    else
      var rest := Split(s[1..], sep);
      if s[0] == sep then [""] + rest else [[s[0]] + rest[0]] + rest[1..]
  }

  /** `sep.join(parts)`. */
  function Join(parts: seq<string>, sep: char): string
  {
    if parts == [] then ""
    else if |parts| == 1 then parts[0]
    else parts[0] + [sep] + Join(parts[1..], sep)
  }

  /** Joining what was split gives the string back. */
  lemma {:induction false} JoinSplit(s: string, sep: char)
    ensures Join(Split(s, sep), sep) == s
    decreases |s|
  {
    if s != [] {
      JoinSplit(s[1..], sep);
      var rest := Split(s[1..], sep);
      if s[0] != sep && |rest| > 1 {
        assert ([[s[0]] + rest[0]] + rest[1..])[1..] == rest[1..];
        assert Join(rest, sep) == rest[0] + [sep] + Join(rest[1..], sep);
      }
      if s[0] == sep {
        assert ([""] + rest)[1..] == rest;
      }
      assert s == [s[0]] + s[1..];
    }
  }

  lemma {:induction false} SplitNoSep(p: string, sep: char)
    requires sep !in p
    ensures Split(p, sep) == [p]
    decreases |p|
  {
    if p != [] {
      SplitNoSep(p[1..], sep);
      assert [p[0]] + p[1..] == p;
    }
  }

  lemma {:induction false} SplitCons(p: string, sep: char, t: string)
    requires sep !in p
    ensures Split(p + [sep] + t, sep) == [p] + Split(t, sep)
    decreases |p|
  {
    var s := p + [sep] + t;
    if p == [] {
      assert s[1..] == t;
    } else {
      assert s[1..] == p[1..] + [sep] + t;
      SplitCons(p[1..], sep, t);
      assert [p[0]] + p[1..] == p;
    }
  }

  /** Splitting a join of separator-free pieces gives the pieces back. */
  lemma {:induction false} SplitJoin(parts: seq<string>, sep: char)
    requires |parts| >= 1
    requires forall i :: 0 <= i < |parts| ==> sep !in parts[i]
    ensures Split(Join(parts, sep), sep) == parts
    decreases |parts|
  {
    if |parts| == 1 {
      SplitNoSep(parts[0], sep);
    } else {
      SplitJoin(parts[1..], sep);
      SplitCons(parts[0], sep, Join(parts[1..], sep));
      assert [parts[0]] + parts[1..] == parts;
    }
  }

  /** Joining a non-empty list with one more piece puts one separator between. */
  lemma {:induction false} JoinSnoc(parts: seq<string>, sep: char, last: string)
    requires |parts| >= 1
    ensures Join(parts + [last], sep) == Join(parts, sep) + [sep] + last
    decreases |parts|
  {
    if |parts| > 1 {
      assert (parts + [last])[1..] == parts[1..] + [last];
      JoinSnoc(parts[1..], sep, last);
    }
  }

  /**
   * `os.path.dirname(p)` for a normalised relative path: the text before the
   * last '/', or "" when there is none.
   */
  function Dirname(p: string): (d: string)
    ensures StartsWith(p, d)
    ensures Slash !in p ==> d == ""
    ensures Slash in p ==> |d| < |p| && p[|d|] == Slash && Slash !in p[|d| + 1..]
    decreases |p|
  {
    if p == [] then ""
    else if p[|p| - 1] == Slash then p[..|p| - 1]
    else
      assert p[..|p| - 1][..|Dirname(p[..|p| - 1])|] == p[..|Dirname(p[..|p| - 1])|];
      assert Slash in p ==> Slash in p[..|p| - 1];
      Dirname(p[..|p| - 1])
  }

  /** The directory part of "q/last" is q. */
  lemma DirnameAppend(q: string, last: string)
    requires Slash !in last
    ensures Dirname(q + [Slash] + last) == q
  {
    var p := q + [Slash] + last;
    assert p[|q|] == Slash;
    assert p[|q| + 1..] == last;
    assert p[..|q|] == q;
  }

  /**
   * `os.path.relpath(path, start)` for a path the walk of `start` yields:
   * "." for start itself, the remainder for a path below it.
   */
  function RelPath(path: string, start: string): string
  {
    if path == start then "."
    else if StartsWith(path, start + [Slash]) then path[|start| + 1..]
    else path
  }

  /** The directory a walk of `source` reaches through the components rel. */
  function WalkPath(source: string, rel: seq<string>): string
  {
    if rel == [] then source else source + [Slash] + Join(rel, Slash)
  }

  /** A path component as the walk yields it: non-empty and without '/'. */
  predicate IsComponent(c: string) {
    c != "" && Slash !in c
  }

  /** Below its start, a walked path is relative to that start as the join of its components. */
  lemma RelPathOfWalkPath(source: string, rel: seq<string>)
    requires |rel| >= 1 && forall i :: 0 <= i < |rel| ==> IsComponent(rel[i])
    ensures RelPath(WalkPath(source, rel), source) == Join(rel, Slash)
  {
    var path := WalkPath(source, rel);
    assert |Join(rel, Slash)| > 0 by {
      if |rel| > 1 {
        assert Join(rel, Slash) == rel[0] + [Slash] + Join(rel[1..], Slash);
      }
    }
    assert path[..|source| + 1] == source + [Slash];
    assert path[|source| + 1..] == Join(rel, Slash);
  }

  /**
   * The parent directory of a walked path, relative to the walk's start, is the
   * join of all its components but the last ("" for start and its children).
   */
  lemma ParentOfWalkPath(source: string, rel: seq<string>)
    requires forall i :: 0 <= i < |rel| ==> IsComponent(rel[i])
    ensures |rel| <= 1 ==> Dirname(RelPath(WalkPath(source, rel), source)) == ""
    ensures |rel| >= 2 ==>
      Dirname(RelPath(WalkPath(source, rel), source)) == Join(rel[..|rel| - 1], Slash)
  {
    if rel != [] {
      RelPathOfWalkPath(source, rel);
      if |rel| >= 2 {
        var front := rel[..|rel| - 1];
        assert front + [rel[|rel| - 1]] == rel;
        JoinSnoc(front, Slash, rel[|rel| - 1]);
        DirnameAppend(Join(front, Slash), rel[|rel| - 1]);
      }
    }
  }
}
