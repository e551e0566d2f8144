/**
 * Target directories (lines 102-124 of tools/create_workspace.py): where each
 * package is written in the new workspace. Flat mode puts every package
 * directly below "src", under its original name as line 107 is written.
 * Structure mode puts it below one shared 'dir%08d' token per piece of
 * `SUBDIR.split('/')`, which is one piece more than the parent directories of
 * a package directly below the source directory.
 *
 * The functions that take `corrected` describe the script as written when it
 * is false (this is what the methods compute) and, when it is true, the
 * evidently intended reading: flat targets under the new name, and no token
 * for a package without parent directories.
 */
module TargetPaths {
  import opened Decimal
  import opened Paths
  import opened Manifest
  import opened Scanner
  import opened PackageNames

  const Container: string := "src"

  /** `'dir%08d' % n`. */
  function DirToken(n: nat): string
  {
    "dir" + Pad8(n)
  }

  /** Different numbers give different directory tokens. */
  lemma DirTokenInjective(a: nat, b: nat)
    ensures DirToken(a) == DirToken(b) ==> a == b
  {
    if DirToken(a) == DirToken(b) {
      assert Pad8(a) == DirToken(a)[3..];
      assert Pad8(b) == DirToken(b)[3..];
      Pad8Injective(a, b);
    }
  }

  /** Lines 111-112: the package's parent directory, relative to the source directory. */
  function Subdir(dir: string, source: string): string
  {
    Dirname(RelPath(dir, source))
  }

  /** Line 114 as written: `SUBDIR.split('/')`, which is [""] for a top-level package. */
  function SegmentsAsWritten(subdir: string): (r: seq<string>)
    ensures |r| >= 1
  {
    Split(subdir, Slash)
  }

  /** The segments of a parent directory: none for a top-level package. */
  function Segments(subdir: string): (r: seq<string>)
    ensures subdir == "" <==> r == []
  {
    if subdir == "" then [] else Split(subdir, Slash)
  }

  /** Line 107 as written: the flat target keeps the original package name. */
  function FlatPathAsWritten(name: string): string
  {
    Container + [Slash] + name
  }

  /** The flat target of a package with anonymised name newName. */
  function FlatPath(newName: string): string
  {
    Container + [Slash] + newName
  }

  /** Lines 120-124: the target below the tokens of the parent directories. */
  function NestedPath(tokens: seq<string>, newName: string): string
  {
    if tokens == [] then Container + [Slash] + newName
    else Container + [Slash] + Join(tokens, Slash) + [Slash] + newName
  }

  /** Line 114 for a package record, as written or corrected. */
  function PackageSegments(rec: Record, source: string, corrected: bool): seq<string>
  {
    var subdir := Subdir(rec.dir, source);
    if corrected then Segments(subdir) else SegmentsAsWritten(subdir)
  }

  /** Lines 114-117 for one list of segments: each segment not yet seen joins the token order. */
  function NoteSegments(seen: seq<string>, segs: seq<string>): (r: seq<string>)
    ensures |seen| <= |r| && r[..|seen|] == seen
    decreases |segs|
  {
    if segs == [] then seen
    else
      var prior := NoteSegments(seen, segs[..|segs| - 1]);
      var s := segs[|segs| - 1];
      if s !in prior then
        assert (prior + [s])[..|prior|] == prior;
        prior + [s]
      else prior
  }

  lemma NoteSegmentsSnoc(seen: seq<string>, segs: seq<string>, s: string)
    ensures var prior := NoteSegments(seen, segs);
      NoteSegments(seen, segs + [s]) == if s !in prior then prior + [s] else prior
  {
    assert (segs + [s])[..|segs|] == segs;
  }

  /** NoteSegments repeats nothing and ends up holding every segment it was given. */
  lemma {:induction false} NoteSegmentsAdds(seen: seq<string>, segs: seq<string>)
    ensures var r := NoteSegments(seen, segs);
      && (Distinct(seen) ==> Distinct(r))
      && (forall k :: 0 <= k < |segs| ==> segs[k] in r)
    decreases |segs|
  {
    if segs != [] {
      var front := segs[..|segs| - 1];
      NoteSegmentsAdds(seen, front);
      NoteSegmentsSnoc(seen, front, segs[|segs| - 1]);
      assert front + [segs[|segs| - 1]] == segs;
      var prior := NoteSegments(seen, front);
      var r := NoteSegments(seen, segs);
      forall k | 0 <= k < |segs| ensures segs[k] in r {
        if k < |front| {
          assert front[k] == segs[k];
          var m :| 0 <= m < |prior| && prior[m] == segs[k];
          assert r[m] == prior[m];
        }
      }
    }
  }

  /** The segment lists of the packages, in dictionary order. */
  function SegmentLists(order: seq<string>, cache: map<string, Record>, source: string, corrected: bool): (r: seq<seq<string>>)
    requires Cached(order, cache)
    ensures |r| == |order|
    ensures forall i :: 0 <= i < |order| ==> r[i] == PackageSegments(cache[order[i]], source, corrected)
  {
    seq(|order|, i requires 0 <= i < |order| => PackageSegments(cache[order[i]], source, corrected))
  }

  /**
   * The segments in the order they receive their tokens, over the first n
   * lists in turn: the position of a segment, plus one, is its number.
   */
  function TokenOrder(lists: seq<seq<string>>, n: nat): seq<string>
    requires n <= |lists|
    decreases n
  {
    if n == 0 then [] else NoteSegments(TokenOrder(lists, n - 1), lists[n - 1])
  }

  /** The token order repeats no segment and holds every segment of the first n lists. */
  lemma {:induction false} TokenOrderCovers(lists: seq<seq<string>>, n: nat)
    requires n <= |lists|
    ensures Distinct(TokenOrder(lists, n))
    ensures forall i, k :: 0 <= i < n && 0 <= k < |lists[i]| ==> lists[i][k] in TokenOrder(lists, n)
    decreases n
  {
    if n > 0 {
      TokenOrderCovers(lists, n - 1);
      var prior := TokenOrder(lists, n - 1);
      var r := TokenOrder(lists, n);
      NoteSegmentsAdds(prior, lists[n - 1]);
      forall i, k | 0 <= i < n && 0 <= k < |lists[i]|
        ensures lists[i][k] in r
      {
        if i < n - 1 {
          var m :| 0 <= m < |prior| && prior[m] == lists[i][k];
          assert r[m] == prior[m];
        }
      }
    }
  }

  /** The token order of fewer lists is a prefix of that of more lists. */
  lemma {:induction false} TokenOrderExtends(lists: seq<seq<string>>, m: nat, n: nat)
    requires m <= n <= |lists|
    ensures var prior := TokenOrder(lists, m);
      var all := TokenOrder(lists, n);
      |prior| <= |all| && all[..|prior|] == prior
    decreases n - m
  {
    if m < n {
      TokenOrderExtends(lists, m + 1, n);
      var prior := TokenOrder(lists, m);
      var next := TokenOrder(lists, m + 1);
      var all := TokenOrder(lists, n);
      assert all[..|prior|] == all[..|next|][..|prior|];
    }
  }

  /** NEW_DIR_NAMES for a token order: the k-th segment gets token k. */
  function DirMapOf(seen: seq<string>): map<string, string>
    decreases |seen|
  {
    if seen == [] then map[]
    else DirMapOf(seen[..|seen| - 1])[seen[|seen| - 1] := DirToken(|seen|)]
  }

  lemma {:induction false} DirMapOfHas(seen: seq<string>, x: string)
    ensures x in DirMapOf(seen) <==> x in seen
    decreases |seen|
  {
    if seen != [] {
      var front := seen[..|seen| - 1];
      DirMapOfHas(front, x);
      assert seen == front + [seen[|seen| - 1]];
    }
  }

  /** For a repetition-free token order, every segment is mapped to the token of its position. */
  lemma {:induction false} DirMapOfNumbers(seen: seq<string>)
    requires Distinct(seen)
    ensures forall x :: x in DirMapOf(seen) <==> x in seen
    ensures forall i :: 0 <= i < |seen| ==> DirMapOf(seen)[seen[i]] == DirToken(i + 1)
    decreases |seen|
  {
    if seen != [] {
      var front := seen[..|seen| - 1];
      DirMapOfNumbers(front);
      assert forall x :: x in seen <==> x in front || x == seen[|seen| - 1];
      forall i | 0 <= i < |seen| - 1
        ensures DirMapOf(seen)[seen[i]] == DirToken(i + 1)
      {
        assert front[i] == seen[i];
      }
    }
  }

  /** A token, once given, is the token of the final map too. */
  lemma DirMapOfPrefix(all: seq<string>, prior: seq<string>, x: string)
    requires Distinct(all) && |prior| <= |all| && all[..|prior|] == prior && x in prior
    ensures x in DirMapOf(prior) && x in DirMapOf(all)
    ensures DirMapOf(prior)[x] == DirMapOf(all)[x]
  {
    assert Distinct(prior);
    DirMapOfNumbers(prior);
    DirMapOfNumbers(all);
    var i :| 0 <= i < |prior| && prior[i] == x;
    assert all[i] == x;
  }

  /** Every segment of the list has a token in the map. */
  predicate Covered<T>(segs: seq<T>, dirMap: map<T, string>) {
    forall k :: 0 <= k < |segs| ==> segs[k] in dirMap
  }

  /**
   * The tokens of a list of segments under a token map. A segment without a
   * token would be a KeyError at line 118; TargetsCover shows it cannot occur,
   * and the empty string stands in for it here.
   */
  function Tokens<T>(segs: seq<T>, dirMap: map<T, string>): (r: seq<string>)
    ensures |r| == |segs|
    ensures forall k :: 0 <= k < |segs| && segs[k] in dirMap ==> r[k] == dirMap[segs[k]]
  {
    seq(|segs|, k requires 0 <= k < |segs| => if segs[k] in dirMap then dirMap[segs[k]] else "")
  }

  /** NEW_DIR_NAMES at the end of structure mode. */
  function FinalDirMap(reg: Registry, source: string, corrected: bool): map<string, string>
    requires Cached(reg.order, reg.records)
  {
    var lists := SegmentLists(reg.order, reg.records, source, corrected);
    DirMapOf(TokenOrder(lists, |lists|))
  }

  /**
   * The target of the package name with the given segments: flat (line 107,
   * under the original name as written), or below the tokens of the segments.
   */
  function PathFor<T>(segs: seq<T>, name: string, newName: string, dirMap: map<T, string>, copyStructure: bool, corrected: bool): string
  {
    if !copyStructure then (if corrected then FlatPath(newName) else FlatPathAsWritten(name))
    else NestedPath(Tokens(segs, dirMap), newName)
  }

  /** The target of one package record. */
  function TargetPath(rec: Record, source: string, name: string, newName: string, dirMap: map<string, string>,
                      copyStructure: bool, corrected: bool): string
  {
    PathFor(PackageSegments(rec, source, corrected), name, newName, dirMap, copyStructure, corrected)
  }

  /** NoteSegments over one more segment of the same list. */
  lemma NoteSegmentsStep(seen: seq<string>, segs: seq<string>, j: nat)
    requires j < |segs|
    ensures var prior := NoteSegments(seen, segs[..j]);
      NoteSegments(seen, segs[..j + 1]) == if segs[j] !in prior then prior + [segs[j]] else prior
  {
    assert segs[..j + 1] == segs[..j] + [segs[j]];
    NoteSegmentsSnoc(seen, segs[..j], segs[j]);
  }

  /** A new segment gets the next token. */
  lemma DirMapOfSnoc(seen: seq<string>, x: string)
    ensures DirMapOf(seen + [x]) == DirMapOf(seen)[x := DirToken(|seen| + 1)]
  {
    assert (seen + [x])[..|seen|] == seen;
  }

  /**
   * Lines 114-118: the tokens of one package's segments, giving each segment
   * not seen before the next token.
   */
  method MapSegments(segs: seq<string>, dirNames0: map<string, string>, dirNr0: nat, ghost seen: seq<string>)
    returns (tokens: seq<string>, dirNames: map<string, string>, dirNr: nat)
    requires dirNames0 == DirMapOf(seen) && dirNr0 == |seen| + 1
    ensures dirNames == DirMapOf(NoteSegments(seen, segs))
    ensures dirNr == |NoteSegments(seen, segs)| + 1
    ensures Covered(segs, dirNames) && tokens == Tokens(segs, dirNames)
  {
    tokens, dirNames, dirNr := [], dirNames0, dirNr0;
    for j := 0 to |segs|
      invariant dirNames == DirMapOf(NoteSegments(seen, segs[..j]))
      invariant dirNr == |NoteSegments(seen, segs[..j])| + 1
      invariant Covered(segs[..j], dirNames) && tokens == Tokens(segs[..j], dirNames)
    {
      ghost var cur := NoteSegments(seen, segs[..j]);
      NoteSegmentsStep(seen, segs, j);
      DirMapOfHas(cur, segs[j]);
      if segs[j] !in dirNames {
        ghost var before := dirNames;
        dirNames, dirNr := NewToken(dirNames, dirNr, segs[j], cur);
        TokensGrow(segs[..j], before, segs[j], dirNames[segs[j]]);
      }
      TokensSnoc(segs[..j], dirNames, segs[j]);
      PrefixSnoc(segs, j);
      tokens := tokens + [dirNames[segs[j]]];
    }
    assert segs[..|segs|] == segs;
  }

  /** Lines 115-117: a segment not seen before gets the next token. */
  method NewToken(dirNames0: map<string, string>, dirNr0: nat, x: string, ghost seen: seq<string>)
    returns (dirNames: map<string, string>, dirNr: nat)
    requires dirNames0 == DirMapOf(seen) && dirNr0 == |seen| + 1
    ensures dirNames == DirMapOf(seen + [x]) && dirNr == |seen + [x]| + 1
    ensures dirNames == dirNames0[x := dirNames[x]]
  {
    DirMapOfSnoc(seen, x);
    dirNames := dirNames0[x := DirToken(dirNr0)];
    dirNr := dirNr0 + 1;
  }

  /** Reading one more segment's token extends the tokens by it. */
  lemma TokensSnoc<T>(segs: seq<T>, dirMap: map<T, string>, x: T)
    requires Covered(segs, dirMap) && x in dirMap
    ensures Covered(segs + [x], dirMap)
    ensures Tokens(segs + [x], dirMap) == Tokens(segs, dirMap) + [dirMap[x]]
  {
  }

  /** Giving a token to a new segment does not change the tokens of covered segments. */
  lemma TokensGrow<T>(segs: seq<T>, dirMap: map<T, string>, x: T, token: string)
    requires Covered(segs, dirMap) && x !in dirMap
    ensures Covered(segs, dirMap[x := token])
    ensures Tokens(segs, dirMap[x := token]) == Tokens(segs, dirMap)
  {
  }

  /** Tokens read from a map built so far are the tokens of the final map. */
  lemma TokensAgree(all: seq<string>, now: seq<string>, segs: seq<string>)
    requires Distinct(all) && |now| <= |all| && all[..|now|] == now
    requires Covered(segs, DirMapOf(now))
    ensures Covered(segs, DirMapOf(all)) && Tokens(segs, DirMapOf(now)) == Tokens(segs, DirMapOf(all))
  {
    forall k | 0 <= k < |segs|
      ensures segs[k] in DirMapOf(all) && DirMapOf(now)[segs[k]] == DirMapOf(all)[segs[k]]
    {
      DirMapOfHas(now, segs[k]);
      DirMapOfPrefix(all, now, segs[k]);
    }
  }

  /** A repetition-free token order gives as many tokens as segments. */
  lemma DirMapOfSize(seen: seq<string>)
    requires Distinct(seen)
    ensures |DirMapOf(seen)| == |seen|
  {
    DirMapOfNumbers(seen);
    DistinctCardinality(seen);
    assert DirMapOf(seen).Keys == set x | x in seen;
  }

  /** Every package in the order has a new name, and the order has one segment list per package. */
  predicate Named<T>(order: seq<string>, lists: seq<seq<T>>, names: map<string, string>) {
    |order| == |lists| && forall i :: 0 <= i < |order| ==> order[i] in names
  }

  /** NEW_PACKAGE_DIRS after the first n packages. */
  function TargetMap<T>(order: seq<string>, lists: seq<seq<T>>, names: map<string, string>,
                        dirMap: map<T, string>, copyStructure: bool, corrected: bool, n: nat): map<string, string>
    requires n <= |order| && Named(order, lists, names)
    decreases n
  {
    if n == 0 then map[]
    else
      var prior := TargetMap(order, lists, names, dirMap, copyStructure, corrected, n - 1);
      var p := order[n - 1];
      prior[p := PathFor(lists[n - 1], p, names[p], dirMap, copyStructure, corrected)]
  }

  /** For a repetition-free order, each of the first n packages has the target of its own segments. */
  lemma {:induction false} TargetMapLookup<T>(order: seq<string>, lists: seq<seq<T>>, names: map<string, string>,
                                              dirMap: map<T, string>, copyStructure: bool, corrected: bool, n: nat)
    requires n <= |order| && Named(order, lists, names)
    requires Distinct(order)
    ensures forall p :: p in TargetMap(order, lists, names, dirMap, copyStructure, corrected, n) <==> p in order[..n]
    ensures forall j :: 0 <= j < n ==>
      TargetMap(order, lists, names, dirMap, copyStructure, corrected, n)[order[j]]
        == PathFor(lists[j], order[j], names[order[j]], dirMap, copyStructure, corrected)
    decreases n
  {
    if n > 0 {
      TargetMapLookup(order, lists, names, dirMap, copyStructure, corrected, n - 1);
      PrefixSnoc(order, n - 1);
    }
  }

  /** Every package of the dictionary has a new name. */
  predicate NamesAll(reg: Registry, names: map<string, string>) {
    forall p :: p in reg.records ==> p in names
  }

  /** NEW_PACKAGE_DIRS at the end of lines 102-124, as written or corrected. */
  function Targets(reg: Registry, source: string, names: map<string, string>, copyStructure: bool, corrected: bool): map<string, string>
    requires Cached(reg.order, reg.records) && NamesAll(reg, names)
  {
    var lists := SegmentLists(reg.order, reg.records, source, corrected);
    TargetMap(reg.order, lists, names, FinalDirMap(reg, source, corrected), copyStructure, corrected, |reg.order|)
  }

  /** One more package in flat mode, as written: it goes to the container followed by its original name. */
  lemma FlatStep<T>(order: seq<string>, lists: seq<seq<T>>, names: map<string, string>, dirMap: map<T, string>, i: nat)
    requires i < |order| && Named(order, lists, names)
    ensures TargetMap(order, lists, names, dirMap, false, false, i + 1)
      == TargetMap(order, lists, names, dirMap, false, false, i)[order[i] := FlatPathAsWritten(order[i])]
  {
  }

  /** Lines 105-107: every package goes directly below the container, under its original name. */
  method FlatTargets(reg: Registry, source: string, names: map<string, string>) returns (paths: map<string, string>)
    requires Cached(reg.order, reg.records) && NamesAll(reg, names)
    ensures paths == Targets(reg, source, names, false, false)
  {
    paths := map[];
    var order := reg.order;
    ghost var lists := SegmentLists(order, reg.records, source, false);
    ghost var final := FinalDirMap(reg, source, false);
    assert Named(order, lists, names);
    for i := 0 to |order|
      invariant paths == TargetMap(order, lists, names, final, false, false, i)
    {
      FlatStep(order, lists, names, final, i);
      paths := paths[order[i] := FlatPathAsWritten(order[i])];
    }
  }

  /**
   * Lines 109-124: every package goes below the tokens of the pieces of its
   * parent directory, under the token map the whole loop builds.
   */
  method NestedTargets(reg: Registry, source: string, names: map<string, string>)
    returns (paths: map<string, string>, dirNames: map<string, string>, dirNr: nat)
    requires Cached(reg.order, reg.records) && NamesAll(reg, names)
    ensures dirNames == FinalDirMap(reg, source, false)
    ensures dirNr == |dirNames| + 1
    ensures paths == Targets(reg, source, names, true, false)
  {
    paths, dirNames, dirNr := map[], map[], 1;
    var order := reg.order;
    ghost var lists := SegmentLists(order, reg.records, source, false);
    ghost var final := FinalDirMap(reg, source, false);
    for i := 0 to |order|
      invariant dirNames == DirMapOf(TokenOrder(lists, i)) && dirNr == |TokenOrder(lists, i)| + 1
      invariant paths == TargetMap(order, lists, names, final, true, false, i)
    {
      var p := order[i];
      var subdir := Subdir(reg.records[p].dir, source);
      var path;
      path, dirNames, dirNr := PackageTarget(Split(subdir, Slash), names[p], dirNames, dirNr, lists, i);
      paths := paths[p := path];
    }
    TokenOrderCovers(lists, |lists|);
    DirMapOfSize(TokenOrder(lists, |lists|));
  }

  /**
   * Lines 114-124 for the i-th package: its tokens, which are the ones the
   * final token map gives its segments, and its target below them.
   */
  method PackageTarget(segs: seq<string>, newName: string, dirNames0: map<string, string>, dirNr0: nat,
                       ghost lists: seq<seq<string>>, ghost i: nat)
    returns (path: string, dirNames: map<string, string>, dirNr: nat)
    requires i < |lists| && segs == lists[i]
    requires dirNames0 == DirMapOf(TokenOrder(lists, i)) && dirNr0 == |TokenOrder(lists, i)| + 1
    ensures dirNames == DirMapOf(TokenOrder(lists, i + 1)) && dirNr == |TokenOrder(lists, i + 1)| + 1
    ensures path == NestedPath(Tokens(segs, DirMapOf(TokenOrder(lists, |lists|))), newName)
  {
    var tokens;
    tokens, dirNames, dirNr := MapSegments(segs, dirNames0, dirNr0, TokenOrder(lists, i));
    TokensFinal(lists, i);
    if tokens != [] {
      path := Container + [Slash] + Join(tokens, Slash) + [Slash] + newName;
    } else {
      path := Container + [Slash] + newName;
    }
  }

  /** The tokens one package receives during the loop are its tokens under the final map. */
  lemma TokensFinal(lists: seq<seq<string>>, i: nat)
    requires i < |lists|
    requires Covered(lists[i], DirMapOf(TokenOrder(lists, i + 1)))
    ensures var final := DirMapOf(TokenOrder(lists, |lists|));
      Covered(lists[i], final) && Tokens(lists[i], DirMapOf(TokenOrder(lists, i + 1))) == Tokens(lists[i], final)
  {
    TokenOrderCovers(lists, |lists|);
    TokenOrderExtends(lists, i + 1, |lists|);
    TokensAgree(TokenOrder(lists, |lists|), TokenOrder(lists, i + 1), lists[i]);
  }

  /** Lines 102-124: NEW_PACKAGE_DIRS, NEW_DIR_NAMES and the final DIR_NR. */
  method ComputeTargetPaths(reg: Registry, source: string, names: map<string, string>, copyStructure: bool)
    returns (paths: map<string, string>, dirNames: map<string, string>, dirNr: nat)
    requires Cached(reg.order, reg.records) && NamesAll(reg, names)
    ensures paths == Targets(reg, source, names, copyStructure, false)
    ensures dirNames == (if copyStructure then FinalDirMap(reg, source, false) else map[])
    ensures dirNr == |dirNames| + 1
  {
    if !copyStructure {
      paths := FlatTargets(reg, source, names);
      dirNames, dirNr := map[], 1;
    } else {
      paths, dirNames, dirNr := NestedTargets(reg, source, names);
    }
  }

  /**
   * Every package of a well-formed dictionary gets exactly one target: the one
   * its own record calls for, and in structure mode every segment of its
   * parent directory has a token.
   */
  lemma TargetsCover(reg: Registry, source: string, names: map<string, string>, copyStructure: bool, corrected: bool)
    requires reg.Valid() && NamesAll(reg, names)
    ensures Cached(reg.order, reg.records)
    ensures var paths := Targets(reg, source, names, copyStructure, corrected);
      var final := FinalDirMap(reg, source, corrected);
      && (forall p :: p in paths <==> p in reg.records)
      && (forall p :: p in paths ==>
            Covered(PackageSegments(reg.records[p], source, corrected), final)
            && paths[p] == TargetPath(reg.records[p], source, p, names[p], final, copyStructure, corrected))
  {
    ValidIsCached(reg);
    TargetsKeys(reg, source, names, copyStructure, corrected);
    forall p | p in reg.records
      ensures Covered(PackageSegments(reg.records[p], source, corrected), FinalDirMap(reg, source, corrected))
      ensures Targets(reg, source, names, copyStructure, corrected)[p]
        == TargetPath(reg.records[p], source, p, names[p], FinalDirMap(reg, source, corrected), copyStructure, corrected)
    {
      var j :| 0 <= j < |reg.order| && reg.order[j] == p;
      TargetAt(reg, source, names, copyStructure, corrected, j);
    }
  }

  /** The packages with a target are those of the dictionary's order. */
  lemma TargetsKeys(reg: Registry, source: string, names: map<string, string>, copyStructure: bool, corrected: bool)
    requires Cached(reg.order, reg.records) && Distinct(reg.order) && NamesAll(reg, names)
    ensures forall p :: p in Targets(reg, source, names, copyStructure, corrected) <==> p in reg.order
  {
    var lists := SegmentLists(reg.order, reg.records, source, corrected);
    TargetMapLookup(reg.order, lists, names, FinalDirMap(reg, source, corrected), copyStructure, corrected, |reg.order|);
    WholeSeq(reg.order);
  }

  /** The j-th package of the dictionary has the target its own record calls for. */
  lemma TargetAt(reg: Registry, source: string, names: map<string, string>, copyStructure: bool, corrected: bool, j: nat)
    requires Cached(reg.order, reg.records) && Distinct(reg.order) && NamesAll(reg, names) && j < |reg.order|
    ensures var p, final := reg.order[j], FinalDirMap(reg, source, corrected);
      && p in Targets(reg, source, names, copyStructure, corrected)
      && Covered(PackageSegments(reg.records[p], source, corrected), final)
      && Targets(reg, source, names, copyStructure, corrected)[p]
        == TargetPath(reg.records[p], source, p, names[p], final, copyStructure, corrected)
  {
    var lists := SegmentLists(reg.order, reg.records, source, corrected);
    TargetMapLookup(reg.order, lists, names, FinalDirMap(reg, source, corrected), copyStructure, corrected, |reg.order|);
    WholeSeq(reg.order);
    ListCovered(lists, j);
  }

  /** Every segment of every list has a token in the final map. */
  lemma ListCovered(lists: seq<seq<string>>, j: nat)
    requires j < |lists|
    ensures Covered(lists[j], DirMapOf(TokenOrder(lists, |lists|)))
  {
    TokenOrderCovers(lists, |lists|);
    forall k | 0 <= k < |lists[j]| ensures lists[j][k] in DirMapOf(TokenOrder(lists, |lists|)) {
      DirMapOfHas(TokenOrder(lists, |lists|), lists[j][k]);
    }
  }

  /** Repetition-free token orders give different segments different tokens. */
  lemma DirMapOfInjective(seen: seq<string>)
    requires Distinct(seen)
    ensures forall x, y :: x in DirMapOf(seen) && y in DirMapOf(seen) && x != y ==> DirMapOf(seen)[x] != DirMapOf(seen)[y]
    ensures forall x :: x in DirMapOf(seen) ==> exists n :: 1 <= n <= |seen| && DirMapOf(seen)[x] == DirToken(n)
  {
    var m := DirMapOf(seen);
    DirMapOfNumbers(seen);
    forall x, y | x in m && y in m && x != y
      ensures m[x] != m[y]
    {
      var i :| 0 <= i < |seen| && seen[i] == x;
      var j :| 0 <= j < |seen| && seen[j] == y;
      DirTokenInjective(i + 1, j + 1);
    }
    forall x | x in m
      ensures exists n :: 1 <= n <= |seen| && m[x] == DirToken(n)
    {
      var i :| 0 <= i < |seen| && seen[i] == x;
      assert m[seen[i]] == DirToken(i + 1);
    }
  }

  /** NoteSegments adds only segments of the list it is given. */
  lemma {:induction false} NoteSegmentsOnly(seen: seq<string>, segs: seq<string>, x: string)
    requires x in NoteSegments(seen, segs)
    ensures x in seen || x in segs
    decreases |segs|
  {
    if segs != [] {
      var front := segs[..|segs| - 1];
      NoteSegmentsSnoc(seen, front, segs[|segs| - 1]);
      assert front + [segs[|segs| - 1]] == segs;
      if x in NoteSegments(seen, front) {
        NoteSegmentsOnly(seen, front, x);
        if x in front {
          var k :| 0 <= k < |front| && front[k] == x;
          assert segs[k] == x;
        }
      }
    }
  }

  /** Every segment in the token order comes from one of the lists. */
  lemma {:induction false} TokenOrderOnly(lists: seq<seq<string>>, n: nat, x: string)
    requires n <= |lists| && x in TokenOrder(lists, n)
    ensures exists i, k :: 0 <= i < n && 0 <= k < |lists[i]| && lists[i][k] == x
    decreases n
  {
    NoteSegmentsOnly(TokenOrder(lists, n - 1), lists[n - 1], x);
    if x in TokenOrder(lists, n - 1) {
      TokenOrderOnly(lists, n - 1, x);
    } else {
      var k :| 0 <= k < |lists[n - 1]| && lists[n - 1][k] == x;
    }
  }

  /**
   * NEW_DIR_NAMES after structure mode: exactly the segments of the packages'
   * parent directories are mapped, each to its own token, numbered from 1.
   */
  lemma FinalDirMapIsNumbering(reg: Registry, source: string, corrected: bool)
    requires Cached(reg.order, reg.records)
    ensures var m := FinalDirMap(reg, source, corrected);
      && (forall x :: x in m <==>
            exists i, k :: 0 <= i < |reg.order|
              && 0 <= k < |PackageSegments(reg.records[reg.order[i]], source, corrected)|
              && PackageSegments(reg.records[reg.order[i]], source, corrected)[k] == x)
      && (forall x, y :: x in m && y in m && x != y ==> m[x] != m[y])
      && (forall x :: x in m ==> exists n :: 1 <= n <= |m| && m[x] == DirToken(n))
  {
    var lists := SegmentLists(reg.order, reg.records, source, corrected);
    var all := TokenOrder(lists, |lists|);
    var m := FinalDirMap(reg, source, corrected);
    TokenOrderCovers(lists, |lists|);
    DirMapOfInjective(all);
    DirMapOfSize(all);
    forall x
      ensures x in m <==>
        exists i, k :: 0 <= i < |reg.order|
          && 0 <= k < |PackageSegments(reg.records[reg.order[i]], source, corrected)|
          && PackageSegments(reg.records[reg.order[i]], source, corrected)[k] == x
    {
      DirMapOfHas(all, x);
      if x in all {
        TokenOrderOnly(lists, |lists|, x);
        var i, k :| 0 <= i < |lists| && 0 <= k < |lists[i]| && lists[i][k] == x;
        assert lists[i] == PackageSegments(reg.records[reg.order[i]], source, corrected);
      }
    }
  }

  /** A joined list of components is not empty. */
  lemma JoinNonEmpty(parts: seq<string>)
    requires |parts| >= 1 && IsComponent(parts[0])
    ensures Join(parts, Slash) != ""
  {
    if |parts| > 1 {
      assert Join(parts, Slash) == parts[0] + [Slash] + Join(parts[1..], Slash);
    }
  }

  /**
   * Corrected line 114: a package the walk found through the components rel
   * has exactly the components above it as its segments, so the new tree
   * keeps the depth of the original one.
   */
  lemma SegmentsOfWalkPath(source: string, rel: seq<string>)
    requires |rel| >= 1 && forall i :: 0 <= i < |rel| ==> IsComponent(rel[i])
    ensures Segments(Subdir(WalkPath(source, rel), source)) == rel[..|rel| - 1]
  {
    ParentOfWalkPath(source, rel);
    var front := rel[..|rel| - 1];
    if |rel| >= 2 {
      forall i | 0 <= i < |front| ensures IsComponent(front[i]) {
        assert front[i] == rel[i];
      }
      JoinNonEmpty(front);
      SplitJoin(front, Slash);
      assert Subdir(WalkPath(source, rel), source) == Join(front, Slash);
    } else {
      assert Subdir(WalkPath(source, rel), source) == "" && front == [];
    }
  }

  /**
   * Lines 114-124 as written, structure mode: every package is written below
   * one token per piece of its SUBDIR split at '/', and there is at least one
   * such piece, so the branch of line 124 is never taken.
   */
  lemma StructureAsWrittenNests(reg: Registry, source: string, names: map<string, string>, p: string)
    requires reg.Valid() && NamesAll(reg, names) && p in reg.records
    ensures Cached(reg.order, reg.records) && p in Targets(reg, source, names, true, false)
    ensures var segs := Split(Subdir(reg.records[p].dir, source), Slash);
      var final := FinalDirMap(reg, source, false);
      && |segs| >= 1 && Covered(segs, final) && |Tokens(segs, final)| == |segs|
      && Targets(reg, source, names, true, false)[p]
        == Container + [Slash] + Join(Tokens(segs, final), Slash) + [Slash] + names[p]
  {
    TargetsCover(reg, source, names, true, false);
  }

  /**
   * Line 114 as written: a package directly below the source directory gets
   * the segment list [""], so the empty segment is in the final token map and
   * the package lands one level deeper, below the token of the empty segment,
   * where the corrected reading puts it directly below the container.
   */
  lemma TopLevelAsWritten(reg: Registry, source: string, names: map<string, string>, p: string, name: string)
    requires reg.Valid() && NamesAll(reg, names) && p in reg.records
    requires IsComponent(name) && reg.records[p].dir == WalkPath(source, [name])
    ensures Cached(reg.order, reg.records) && "" in FinalDirMap(reg, source, false)
    ensures p in Targets(reg, source, names, true, false) && p in Targets(reg, source, names, true, true)
    ensures Targets(reg, source, names, true, false)[p]
      == Container + [Slash] + FinalDirMap(reg, source, false)[""] + [Slash] + names[p]
    ensures Targets(reg, source, names, true, true)[p] == Container + [Slash] + names[p]
  {
    SegmentsOfSubdir(reg.records[p], source, [name]);
    OneSegmentTarget(reg, source, names, p, "", false);
    NoSegmentTarget(reg, source, names, p, true);
  }

  /** A package without segments is written directly below the container. */
  lemma NoSegmentTarget(reg: Registry, source: string, names: map<string, string>, p: string, corrected: bool)
    requires reg.Valid() && NamesAll(reg, names) && p in reg.records
    requires PackageSegments(reg.records[p], source, corrected) == []
    ensures Cached(reg.order, reg.records) && p in Targets(reg, source, names, true, corrected)
    ensures Targets(reg, source, names, true, corrected)[p] == Container + [Slash] + names[p]
  {
    TargetsCover(reg, source, names, true, corrected);
  }

  /**
   * Line 107 as written: the flat target ends in the original package name,
   * where the corrected one ends in the anonymised name.
   */
  lemma FlatAsWrittenKeepsName(name: string, newName: string)
    ensures FlatPathAsWritten(name)[|Container| + 1..] == name
    ensures FlatPath(newName)[|Container| + 1..] == newName
  {
  }

  /** Two paths "a/x" and "b/y" with last components x and y without '/' agree only if x == y. */
  lemma LastComponentEqual(a: string, x: string, b: string, y: string)
    requires Slash !in x && Slash !in y
    requires a + [Slash] + x == b + [Slash] + y
    ensures x == y
  {
    DirnameAppend(a, x);
    DirnameAppend(b, y);
    assert |a| == |b|;
    assert x == (a + [Slash] + x)[|a| + 1..];
    assert y == (b + [Slash] + y)[|b| + 1..];
  }

  /**
   * A structure-mode target, and a corrected flat one, ends in "/" followed
   * by the new name; a flat one as written ends in the original name.
   */
  lemma PathForEndsInName<T>(segs: seq<T>, name: string, newName: string, dirMap: map<T, string>,
                             copyStructure: bool, corrected: bool)
    ensures copyStructure || corrected ==>
      exists q :: PathFor(segs, name, newName, dirMap, copyStructure, corrected) == q + [Slash] + newName
    ensures !copyStructure && !corrected ==>
      PathFor(segs, name, newName, dirMap, copyStructure, corrected) == Container + [Slash] + name
  {
    var tokens := Tokens(segs, dirMap);
    if copyStructure && tokens != [] {
      var q := Container + [Slash] + Join(tokens, Slash);
      assert PathFor(segs, name, newName, dirMap, copyStructure, corrected) == q + [Slash] + newName;
    } else if copyStructure || corrected {
      assert PathFor(segs, name, newName, dirMap, copyStructure, corrected) == Container + [Slash] + newName;
    }
  }

  /**
   * Packages get different targets, in either mode and either reading: no two
   * packages are written to the same directory. Flat mode as written tells
   * packages apart by their original names, the other cases by their new
   * names, which are distinct and contain no '/'.
   */
  lemma TargetsDistinct(reg: Registry, source: string, names: map<string, string>, copyStructure: bool, corrected: bool)
    requires reg.Valid() && NamesAll(reg, names)
    requires forall p :: p in names ==> Slash !in names[p]
    requires forall p, q :: p in names && q in names && p != q ==> names[p] != names[q]
    ensures Cached(reg.order, reg.records)
    ensures var paths := Targets(reg, source, names, copyStructure, corrected);
      forall p, q :: p in paths && q in paths && p != q ==> paths[p] != paths[q]
  {
    TargetsCover(reg, source, names, copyStructure, corrected);
    var paths := Targets(reg, source, names, copyStructure, corrected);
    var final := FinalDirMap(reg, source, corrected);
    forall p, q | p in paths && q in paths && p != q
      ensures paths[p] != paths[q]
    {
      var sp := PackageSegments(reg.records[p], source, corrected);
      var sq := PackageSegments(reg.records[q], source, corrected);
      PathForEndsInName(sp, p, names[p], final, copyStructure, corrected);
      PathForEndsInName(sq, q, names[q], final, copyStructure, corrected);
      if !copyStructure && !corrected {
        assert paths[p][|Container| + 1..] == p;
        assert paths[q][|Container| + 1..] == q;
      } else {
        var a :| PathFor(sp, p, names[p], final, copyStructure, corrected) == a + [Slash] + names[p];
        var b :| PathFor(sq, q, names[q], final, copyStructure, corrected) == b + [Slash] + names[q];
        if paths[p] == paths[q] {
          LastComponentEqual(a, names[p], b, names[q]);
        }
      }
    }
  }

  /**
   * Corrected structure mode keeps the depth: a package the walk found
   * through the components rel is written below one token per component
   * above it.
   */
  lemma StructureKeepsDepth(reg: Registry, source: string, names: map<string, string>, p: string, rel: seq<string>)
    requires reg.Valid() && NamesAll(reg, names) && p in reg.records
    requires |rel| >= 1 && forall i :: 0 <= i < |rel| ==> IsComponent(rel[i])
    requires reg.records[p].dir == WalkPath(source, rel)
    ensures Cached(reg.order, reg.records) && p in Targets(reg, source, names, true, true)
    ensures var final := FinalDirMap(reg, source, true);
      var tokens := Tokens(rel[..|rel| - 1], final);
      && Covered(rel[..|rel| - 1], final)
      && Targets(reg, source, names, true, true)[p] == NestedPath(tokens, names[p])
      && |tokens| == |rel| - 1
  {
    TargetsCover(reg, source, names, true, true);
    SegmentsOfWalkPath(source, rel);
  }

  /**
   * Two packages, one directly below the source directory (through the
   * component x) and one below the directory y (through y and z): as written,
   * the first one's empty segment takes token 1 and y takes token 2; corrected,
   * y takes token 1 and the empty segment none.
   */
  lemma TwoPackagesDirMaps(reg: Registry, source: string, x: string, y: string, z: string)
    requires reg.Valid() && |reg.order| == 2
    requires IsComponent(x) && IsComponent(y) && IsComponent(z)
    requires reg.records[reg.order[0]].dir == WalkPath(source, [x])
    requires reg.records[reg.order[1]].dir == WalkPath(source, [y, z])
    ensures Cached(reg.order, reg.records)
    ensures FinalDirMap(reg, source, false) == map["" := DirToken(1), y := DirToken(2)]
    ensures FinalDirMap(reg, source, true) == map[y := DirToken(1)]
  {
    ValidIsCached(reg);
    TwoPackagesSegments(reg, source, x, y, z);
    TwoListsDirMaps(y);
  }

  lemma TwoPackagesSegments(reg: Registry, source: string, x: string, y: string, z: string)
    requires Cached(reg.order, reg.records) && |reg.order| == 2
    requires IsComponent(x) && IsComponent(y) && IsComponent(z)
    requires reg.records[reg.order[0]].dir == WalkPath(source, [x])
    requires reg.records[reg.order[1]].dir == WalkPath(source, [y, z])
    ensures SegmentLists(reg.order, reg.records, source, false) == [[""], [y]]
    ensures SegmentLists(reg.order, reg.records, source, true) == [[], [y]]
  {
    var a, b := reg.records[reg.order[0]], reg.records[reg.order[1]];
    SegmentsOfSubdir(a, source, [x]);
    SegmentsOfSubdir(b, source, [y, z]);
    PairList(SegmentLists(reg.order, reg.records, source, false), PackageSegments(a, source, false), PackageSegments(b, source, false));
    PairList(SegmentLists(reg.order, reg.records, source, true), PackageSegments(a, source, true), PackageSegments(b, source, true));
  }

  lemma PairList<T>(s: seq<T>, a: T, b: T)
    requires |s| == 2 && s[0] == a && s[1] == b
    ensures s == [a, b]
  {
  }

  /** The segments of a package found through one or two components, as written and corrected. */
  lemma SegmentsOfSubdir(rec: Record, source: string, rel: seq<string>)
    requires 1 <= |rel| <= 2 && forall i :: 0 <= i < |rel| ==> IsComponent(rel[i])
    requires rec.dir == WalkPath(source, rel)
    ensures PackageSegments(rec, source, false) == if |rel| == 1 then [""] else [rel[0]]
    ensures PackageSegments(rec, source, true) == if |rel| == 1 then [] else [rel[0]]
  {
    SubdirOfWalkPath(source, rel);
    if |rel| == 2 {
      SplitNoSep(rel[0], Slash);
    }
  }

  /** The parent directory of a package found through one or two components. */
  lemma SubdirOfWalkPath(source: string, rel: seq<string>)
    requires 1 <= |rel| <= 2 && forall i :: 0 <= i < |rel| ==> IsComponent(rel[i])
    ensures Subdir(WalkPath(source, rel), source) == if |rel| == 1 then "" else rel[0]
  {
    ParentOfWalkPath(source, rel);
    if |rel| == 2 {
      assert rel[..1] == [rel[0]];
      assert Join([rel[0]], Slash) == rel[0];
    }
  }

  /** The token maps of the segment lists of the two packages, as written and corrected. */
  lemma TwoListsDirMaps(y: string)
    requires y != ""
    ensures DirMapOf(TokenOrder([[""], [y]], 2)) == map["" := DirToken(1), y := DirToken(2)]
    ensures DirMapOf(TokenOrder([[], [y]], 2)) == map[y := DirToken(1)]
  {
    assert [""][..0] == [] && [y][..0] == [];
    assert TokenOrder([[""], [y]], 1) == [""];
    assert y !in [""];
    assert NoteSegments([""], [y]) == ["", y];
    assert TokenOrder([[], [y]], 1) == [];
    assert TokenOrder([[], [y]], 2) == [y];
    DirMapOfSnoc([], "");
    DirMapOfSnoc([""], y);
    DirMapOfSnoc([], y);
  }

  /**
   * The targets of the two packages in structure mode: as written, the first
   * package lands below token 1 and the second below token 2; corrected, the
   * first lands directly below the container and the second below token 1.
   */
  lemma TwoPackagesTargets(reg: Registry, source: string, names: map<string, string>, x: string, y: string, z: string)
    requires reg.Valid() && NamesAll(reg, names) && |reg.order| == 2
    requires IsComponent(x) && IsComponent(y) && IsComponent(z)
    requires reg.records[reg.order[0]].dir == WalkPath(source, [x])
    requires reg.records[reg.order[1]].dir == WalkPath(source, [y, z])
    ensures Cached(reg.order, reg.records)
    ensures var a, b := reg.order[0], reg.order[1];
      var written, fixed := Targets(reg, source, names, true, false), Targets(reg, source, names, true, true);
      && a in written && b in written && a in fixed && b in fixed
      && written[a] == Container + [Slash] + DirToken(1) + [Slash] + names[a]
      && written[b] == Container + [Slash] + DirToken(2) + [Slash] + names[b]
      && fixed[a] == Container + [Slash] + names[a]
      && fixed[b] == Container + [Slash] + DirToken(1) + [Slash] + names[b]
  {
    var a, b := reg.order[0], reg.order[1];
    TwoPackagesDirMaps(reg, source, x, y, z);
    TwoPackagesSegments(reg, source, x, y, z);
    TopLevelAsWritten(reg, source, names, a, x);
    assert PackageSegments(reg.records[b], source, false) == [y];
    assert PackageSegments(reg.records[b], source, true) == [y];
    OneSegmentTarget(reg, source, names, b, y, false);
    OneSegmentTarget(reg, source, names, b, y, true);
  }

  /** A package with the single segment y is written below the token of y. */
  lemma OneSegmentTarget(reg: Registry, source: string, names: map<string, string>, p: string, y: string, corrected: bool)
    requires reg.Valid() && NamesAll(reg, names) && p in reg.records
    requires PackageSegments(reg.records[p], source, corrected) == [y]
    ensures Cached(reg.order, reg.records) && y in FinalDirMap(reg, source, corrected)
    ensures p in Targets(reg, source, names, true, corrected)
    ensures Targets(reg, source, names, true, corrected)[p]
      == Container + [Slash] + FinalDirMap(reg, source, corrected)[y] + [Slash] + names[p]
  {
    TargetsCover(reg, source, names, true, corrected);
    var token := FinalDirMap(reg, source, corrected)[y];
    assert Tokens([y], FinalDirMap(reg, source, corrected)) == [token];
    assert Join([token], Slash) == token;
  }

  /** A source directory "ws" holding the package alpha directly and the package beta below "team". */
  function TeamSource(): Registry {
    Registry(["alpha", "beta"],
             map["alpha" := DependsOn(WalkPath("ws", ["alpha"]), []),
                 "beta" := DependsOn(WalkPath("ws", ["team", "beta"]), [])])
  }

  /**
   * Structure mode on TeamSource: as written, alpha goes to src/dir00000001
   * and beta to src/dir00000002, with "" and "team" numbered; corrected,
   * alpha goes directly to src and beta to src/dir00000001.
   */
  lemma TeamSourceTargets(names: map<string, string>)
    requires "alpha" in names && "beta" in names
    ensures TeamSource().Valid() && Cached(TeamSource().order, TeamSource().records)
    ensures FinalDirMap(TeamSource(), "ws", false) == map["" := DirToken(1), "team" := DirToken(2)]
    ensures FinalDirMap(TeamSource(), "ws", true) == map["team" := DirToken(1)]
    ensures var written, fixed := Targets(TeamSource(), "ws", names, true, false), Targets(TeamSource(), "ws", names, true, true);
      && "alpha" in written && "beta" in written && "alpha" in fixed && "beta" in fixed
      && written["alpha"] == Container + [Slash] + DirToken(1) + [Slash] + names["alpha"]
      && written["beta"] == Container + [Slash] + DirToken(2) + [Slash] + names["beta"]
      && fixed["alpha"] == Container + [Slash] + names["alpha"]
      && fixed["beta"] == Container + [Slash] + DirToken(1) + [Slash] + names["beta"]
  {
    var reg := TeamSource();
    assert reg.Valid();
    TwoPackagesDirMaps(reg, "ws", "alpha", "team", "beta");
    TwoPackagesTargets(reg, "ws", names, "alpha", "team", "beta");
  }
}
