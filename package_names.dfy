/**
 * Anonymised package names (lines 85-96 of tools/create_workspace.py): walk
 * the packages in dictionary order; a package without a name gets the next
 * 'package%08d', and right after it its not yet named dependencies that are
 * themselves packages of the workspace, in category then list order.
 */
module PackageNames {
  import opened Decimal
  import opened Manifest
  import opened Scanner

  /** `'package%08d' % n`. */
  function PackageName(n: nat): string
  {
    "package" + Pad8(n)
  }

  /** Different numbers give different package names. */
  lemma PackageNameInjective(a: nat, b: nat)
    ensures PackageName(a) == PackageName(b) ==> a == b
  {
    if PackageName(a) == PackageName(b) {
      assert Pad8(a) == PackageName(a)[7..];
      assert Pad8(b) == PackageName(b)[7..];
      Pad8Injective(a, b);
    }
  }

  /** A package name holds no '/', so it is a single path component. */
  lemma PackageNameIsComponent(n: nat)
    ensures '/' !in PackageName(n) && |PackageName(n)| >= 15
  {
    var s := PackageName(n);
    Pad8Value(n);
    forall i | 0 <= i < |s| ensures s[i] != '/' {
      if i >= 7 {
        assert s[i] == Pad8(n)[i - 7];
      }
    }
  }

  predicate Distinct<T(==)>(s: seq<T>) {
    forall i, j :: 0 <= i < j < |s| ==> s[i] != s[j]
  }

  ghost predicate AllComplete(cache: map<string, Record>) {
    forall p :: p in cache ==> Complete(cache[p])
  }

  /**
   * Lines 93-96 for one list of edges: every dependency that is a package and
   * not yet named joins the assignment order, in turn.
   */
  function NoteDeps(named: seq<string>, deps: seq<(DepKey, string)>, cache: map<string, Record>): (r: seq<string>)
    ensures |named| <= |r| && r[..|named|] == named
    decreases |deps|
  {
    if deps == [] then named
    else
      var prior := NoteDeps(named, deps[..|deps| - 1], cache);
      var d := deps[|deps| - 1].1;
      if d in cache && d !in prior then
        assert (prior + [d])[..|prior|] == prior;
        prior + [d]
      else prior
  }

  /** NoteDeps takes one more edge. */
  lemma NoteDepsSnoc(named: seq<string>, deps: seq<(DepKey, string)>, e: (DepKey, string), cache: map<string, Record>)
    ensures var prior := NoteDeps(named, deps, cache);
      NoteDeps(named, deps + [e], cache) == if e.1 in cache && e.1 !in prior then prior + [e.1] else prior
  {
    assert (deps + [e])[..|deps|] == deps;
  }

  /**
   * What NoteDeps adds: only dependencies that are packages, each once and
   * none already named, and every dependency that is a package ends up named.
   */
  lemma {:induction false} NoteDepsAdds(named: seq<string>, deps: seq<(DepKey, string)>, cache: map<string, Record>)
    ensures var r := NoteDeps(named, deps, cache);
      && (Distinct(named) ==> Distinct(r))
      && (forall j :: |named| <= j < |r| ==> r[j] in cache && exists i :: 0 <= i < |deps| && deps[i].1 == r[j])
      && (forall i :: 0 <= i < |deps| && deps[i].1 in cache ==> deps[i].1 in r)
    decreases |deps|
  {
    if deps != [] {
      var front := deps[..|deps| - 1];
      NoteDepsAdds(named, front, cache);
      assert deps == front + [deps[|deps| - 1]];
      NoteDepsSnoc(named, front, deps[|deps| - 1], cache);
      var prior := NoteDeps(named, front, cache);
      var r := NoteDeps(named, deps, cache);
      forall j | |named| <= j < |r|
        ensures r[j] in cache && exists i :: 0 <= i < |deps| && deps[i].1 == r[j]
      {
        if j < |prior| {
          assert r[j] == prior[j];
          var i :| 0 <= i < |front| && front[i].1 == prior[j];
          assert deps[i] == front[i];
        } else {
          assert deps[|deps| - 1].1 == r[j];
        }
      }
      forall i | 0 <= i < |deps| && deps[i].1 in cache
        ensures deps[i].1 in r
      {
        if i < |front| {
          assert front[i] == deps[i];
          var k :| 0 <= k < |prior| && prior[k] == deps[i].1;
          assert r[k] == prior[k];
        }
      }
    }
  }

  /** One turn of the loop at line 87. */
  function NotePackage(named: seq<string>, p: string, cache: map<string, Record>): (r: seq<string>)
    requires p in cache && Complete(cache[p])
    ensures |named| <= |r| && r[..|named|] == named
  {
    if p in named then named
    else
      var r := NoteDeps(named + [p], Edges(cache[p]), cache);
      assert r[..|named| + 1][..|named|] == named;
      r
  }

  /**
   * A package that is not yet named takes the next number, and the numbers
   * right after it go to its dependencies that are packages and not yet
   * named; the numbers already given do not change.
   */
  lemma NotePackageNumbers(named: seq<string>, p: string, cache: map<string, Record>)
    requires p in cache && Complete(cache[p]) && p !in named
    ensures var r := NotePackage(named, p, cache);
      && r[..|named|] == named
      && r[|named|] == p
      && (forall j :: |named| < j < |r| ==> r[j] in cache && exists k :: r[j] in cache[p].deps[k])
      && (forall k, d :: d in cache[p].deps[k] && d in cache ==> d in r)
  {
    var edges := Edges(cache[p]);
    var r := NoteDeps(named + [p], edges, cache);
    NoteDepsAdds(named + [p], edges, cache);
    EdgesMembers(cache[p]);
    forall k, d | d in cache[p].deps[k] && d in cache
      ensures d in r
    {
      assert (k, d) in edges;
      var i :| 0 <= i < |edges| && edges[i] == (k, d);
    }
    forall j | |named| < j < |r|
      ensures r[j] in cache && exists k :: r[j] in cache[p].deps[k]
    {
      var i :| 0 <= i < |edges| && edges[i].1 == r[j];
      assert edges[i] in edges;
      assert r[j] in cache[p].deps[edges[i].0];
    }
  }

  /** What one turn keeps: no repetition, only packages, and the package itself is named. */
  lemma NotePackageKeeps(named: seq<string>, p: string, cache: map<string, Record>)
    requires p in cache && Complete(cache[p])
    ensures var r := NotePackage(named, p, cache);
      && (Distinct(named) ==> Distinct(r))
      && (forall j :: |named| <= j < |r| ==> r[j] in cache)
      && p in r
  {
    if p !in named {
      var r := NoteDeps(named + [p], Edges(cache[p]), cache);
      NoteDepsAdds(named + [p], Edges(cache[p]), cache);
      assert r[|named|] == p;
    }
  }

  /** Every package of the dictionary is in cache, and every record is complete. */
  ghost predicate Cached(order: seq<string>, cache: map<string, Record>) {
    && (forall i :: 0 <= i < |order| ==> order[i] in cache)
    && AllComplete(cache)
  }

  /**
   * The packages in the order they receive their numbers: the position of a
   * package in this sequence, plus one, is its number.
   */
  function AssignmentOrder(order: seq<string>, cache: map<string, Record>): (r: seq<string>)
    requires Cached(order, cache)
    decreases |order|
  {
    if order == [] then []
    else
      var front := order[..|order| - 1];
      assert forall i :: 0 <= i < |front| ==> front[i] == order[i];
      NotePackage(AssignmentOrder(front, cache), order[|order| - 1], cache)
  }

  /** The assignment order for one more package of the dictionary. */
  lemma AssignmentOrderSnoc(order: seq<string>, cache: map<string, Record>, n: nat)
    requires Cached(order, cache) && n < |order|
    ensures Cached(order[..n], cache) && Cached(order[..n + 1], cache)
    ensures AssignmentOrder(order[..n + 1], cache) == NotePackage(AssignmentOrder(order[..n], cache), order[n], cache)
  {
    var small, big := order[..n], order[..n + 1];
    assert forall i :: 0 <= i < |big| ==> big[i] == order[i];
    assert big[..n] == small;
  }

  /**
   * The assignment order repeats no package, holds only packages, and holds
   * every package of the dictionary.
   */
  lemma {:induction false} AssignmentOrderCovers(order: seq<string>, cache: map<string, Record>)
    requires Cached(order, cache)
    ensures var r := AssignmentOrder(order, cache);
      && Distinct(r)
      && (forall x :: x in r ==> x in cache)
      && (forall i :: 0 <= i < |order| ==> order[i] in r)
    decreases |order|
  {
    if order != [] {
      var n := |order| - 1;
      AssignmentOrderSnoc(order, cache, n);
      assert order[..n + 1] == order;
      var front := order[..n];
      AssignmentOrderCovers(front, cache);
      var prior := AssignmentOrder(front, cache);
      var r := AssignmentOrder(order, cache);
      NotePackageKeeps(prior, order[n], cache);
      forall x | x in r ensures x in cache {
        var j :| 0 <= j < |r| && r[j] == x;
        if j < |prior| {
          assert prior[j] == x;
        }
      }
      forall i | 0 <= i < |order| ensures order[i] in r {
        if i < n {
          assert front[i] == order[i];
          var k :| 0 <= k < |prior| && prior[k] == order[i];
          assert r[k] == prior[k];
        }
      }
    }
  }

  /** The assignment order of a shorter dictionary is a prefix of the full one. */
  lemma {:induction false} AssignmentOrderExtends(order: seq<string>, cache: map<string, Record>, n: nat)
    requires Cached(order, cache) && n <= |order|
    ensures Cached(order[..n], cache)
    ensures var prior := AssignmentOrder(order[..n], cache);
      var a := AssignmentOrder(order, cache);
      |prior| <= |a| && a[..|prior|] == prior
    decreases |order| - n
  {
    if n == |order| {
      assert order[..n] == order;
    } else {
      AssignmentOrderExtends(order, cache, n + 1);
      AssignmentOrderSnoc(order, cache, n);
      var prior := AssignmentOrder(order[..n], cache);
      var next := AssignmentOrder(order[..n + 1], cache);
      var a := AssignmentOrder(order, cache);
      assert a[..|prior|] == a[..|next|][..|prior|];
    }
  }

  /** The position of the first edge to d, or |deps| when there is none. */
  function FirstEdge(deps: seq<(DepKey, string)>, d: string): (i: nat)
    ensures i <= |deps|
    ensures i < |deps| ==> deps[i].1 == d
    ensures forall j :: 0 <= j < i ==> deps[j].1 != d
    decreases |deps|
  {
    if deps == [] then 0
    else if deps[0].1 == d then 0
    else 1 + FirstEdge(deps[1..], d)
  }

  /** One more edge does not move an earlier first edge. */
  lemma {:induction false} FirstEdgeSnoc(deps: seq<(DepKey, string)>, e: (DepKey, string), d: string)
    ensures FirstEdge(deps, d) < |deps| ==> FirstEdge(deps + [e], d) == FirstEdge(deps, d)
    ensures FirstEdge(deps, d) == |deps| && e.1 == d ==> FirstEdge(deps + [e], d) == |deps|
    decreases |deps|
  {
    if deps != [] {
      assert (deps + [e])[1..] == deps[1..] + [e];
      FirstEdgeSnoc(deps[1..], e, d);
    }
  }

  /**
   * NoteDeps numbers the dependencies in the order of their first edges: of
   * two entries it adds, the earlier one has the earlier first edge.
   */
  lemma {:induction false} NoteDepsInEdgeOrder(named: seq<string>, deps: seq<(DepKey, string)>, cache: map<string, Record>)
    ensures var r := NoteDeps(named, deps, cache);
      && (forall j :: |named| <= j < |r| ==> FirstEdge(deps, r[j]) < |deps|)
      && (forall j1, j2 :: |named| <= j1 < j2 < |r| ==> FirstEdge(deps, r[j1]) < FirstEdge(deps, r[j2]))
    decreases |deps|
  {
    if deps != [] {
      var front := deps[..|deps| - 1];
      var e := deps[|deps| - 1];
      assert deps == front + [e];
      NoteDepsInEdgeOrder(named, front, cache);
      NoteDepsSnoc(named, front, e, cache);
      NoteDepsAdds(named, front, cache);
      var prior := NoteDeps(named, front, cache);
      var r := NoteDeps(named, deps, cache);
      forall j | |named| <= j < |prior|
        ensures r[j] == prior[j] && FirstEdge(deps, r[j]) == FirstEdge(front, prior[j]) < |front|
      {
        FirstEdgeSnoc(front, e, prior[j]);
      }
      if |r| > |prior| {
        assert r[|prior|] == e.1 && e.1 in cache && e.1 !in prior;
        assert FirstEdge(front, e.1) == |front|;
        FirstEdgeSnoc(front, e, e.1);
        assert FirstEdge(deps, r[|prior|]) == |front|;
      }
    }
  }

  /** The dependencies a turn numbers get their numbers in the order of their first edges. */
  lemma NotePackageInEdgeOrder(named: seq<string>, p: string, cache: map<string, Record>)
    requires p in cache && Complete(cache[p]) && p !in named
    ensures var r := NotePackage(named, p, cache);
      forall j1, j2 :: |named| < j1 < j2 < |r| ==> FirstEdge(Edges(cache[p]), r[j1]) < FirstEdge(Edges(cache[p]), r[j2])
  {
    NoteDepsInEdgeOrder(named + [p], Edges(cache[p]), cache);
    assert NotePackage(named, p, cache) == NoteDeps(named + [p], Edges(cache[p]), cache);
    forall j1, j2 | |named| < j1 < j2 < |NotePackage(named, p, cache)|
      ensures FirstEdge(Edges(cache[p]), NotePackage(named, p, cache)[j1]) < FirstEdge(Edges(cache[p]), NotePackage(named, p, cache)[j2])
    {
      assert |named + [p]| <= j1;
    }
  }

  /**
   * The turn of the loop at line 87 for the i-th package of the dictionary.
   * A package already named adds nothing: its dependencies are not looked at
   * again. Otherwise it takes the next number; the numbers right after it go
   * to its dependencies that are packages, in the order of their first edge
   * (category by category, each list in order); and by the end of the turn
   * every dependency of it that is a package is named.
   */
  lemma TurnNamesDependencies(reg: Registry, i: nat)
    requires reg.Valid() && i < |reg.order|
    ensures Cached(reg.order, reg.records)
    ensures Cached(reg.order[..i], reg.records) && Cached(reg.order[..i + 1], reg.records)
    ensures var p := reg.order[i];
      var prior := AssignmentOrder(reg.order[..i], reg.records);
      var after := AssignmentOrder(reg.order[..i + 1], reg.records);
      var a := AssignmentOrder(reg.order, reg.records);
      && |after| <= |a| && a[..|after|] == after
      && (p in prior ==> after == prior)
      && (p !in prior ==>
        && |prior| < |after|
        && a[|prior|] == p
        && (forall j :: |prior| < j < |after| ==> a[j] in reg.records && exists k :: a[j] in reg.records[p].deps[k])
        && (forall j1, j2 :: |prior| < j1 < j2 < |after| ==>
              FirstEdge(Edges(reg.records[p]), a[j1]) < FirstEdge(Edges(reg.records[p]), a[j2]))
        && (forall k, d :: d in reg.records[p].deps[k] && d in reg.records ==> d in after))
  {
    ValidIsCached(reg);
    AssignmentOrderSnoc(reg.order, reg.records, i);
    AssignmentOrderExtends(reg.order, reg.records, i + 1);
    var p := reg.order[i];
    var prior := AssignmentOrder(reg.order[..i], reg.records);
    var after := AssignmentOrder(reg.order[..i + 1], reg.records);
    var a := AssignmentOrder(reg.order, reg.records);
    if p !in prior {
      TurnInFinalOrder(prior, p, reg.records, a);
    }
  }

  /** What one turn of an unnamed package numbers, read in any order that extends the turn's result. */
  lemma TurnInFinalOrder(prior: seq<string>, p: string, cache: map<string, Record>, a: seq<string>)
    requires p in cache && Complete(cache[p]) && p !in prior
    requires var after := NotePackage(prior, p, cache); |after| <= |a| && a[..|after|] == after
    ensures var after := NotePackage(prior, p, cache);
      && |prior| < |after|
      && a[|prior|] == p
      && (forall j :: |prior| < j < |after| ==> a[j] in cache && exists k :: a[j] in cache[p].deps[k])
      && (forall j1, j2 :: |prior| < j1 < j2 < |after| ==> FirstEdge(Edges(cache[p]), a[j1]) < FirstEdge(Edges(cache[p]), a[j2]))
      && (forall k, d :: d in cache[p].deps[k] && d in cache ==> d in after)
  {
    var after := NotePackage(prior, p, cache);
    NotePackageNumbers(prior, p, cache);
    NotePackageInEdgeOrder(prior, p, cache);
    assert a[|prior|] == after[|prior|];
    forall j | |prior| < j < |after|
      ensures a[j] in cache && exists k :: a[j] in cache[p].deps[k]
    {
      assert a[j] == after[j];
    }
    forall j1, j2 | |prior| < j1 < j2 < |after|
      ensures FirstEdge(Edges(cache[p]), a[j1]) < FirstEdge(Edges(cache[p]), a[j2])
    {
      assert a[j1] == after[j1] && a[j2] == after[j2];
    }
  }

  /** NEW_PACKAGE_NAMES for an assignment order: the k-th package gets number k. */
  function NameMapOf(named: seq<string>): map<string, string>
    decreases |named|
  {
    if named == [] then map[]
    else NameMapOf(named[..|named| - 1])[named[|named| - 1] := PackageName(|named|)]
  }

  /** Naming one more package gives it the next number. */
  lemma NameMapOfSnoc(named: seq<string>, p: string)
    ensures NameMapOf(named + [p]) == NameMapOf(named)[p := PackageName(|named| + 1)]
  {
    assert (named + [p])[..|named|] == named;
  }

  /** The packages named are those of the assignment order. */
  lemma {:induction false} NameMapOfHas(named: seq<string>, x: string)
    ensures x in NameMapOf(named) <==> x in named
    decreases |named|
  {
    if named != [] {
      var front := named[..|named| - 1];
      NameMapOfHas(front, x);
      assert named == front + [named[|named| - 1]];
    }
  }

  /** For a repetition-free order, every element is named by its position. */
  lemma {:induction false} NameMapOfNumbers(named: seq<string>)
    requires Distinct(named)
    ensures forall x :: x in NameMapOf(named) <==> x in named
    ensures forall i :: 0 <= i < |named| ==> NameMapOf(named)[named[i]] == PackageName(i + 1)
    decreases |named|
  {
    if named != [] {
      var front := named[..|named| - 1];
      NameMapOfNumbers(front);
      assert forall x :: x in named <==> x in front || x == named[|named| - 1];
      forall i | 0 <= i < |named| - 1
        ensures NameMapOf(named)[named[i]] == PackageName(i + 1)
      {
        assert front[i] == named[i];
      }
    }
  }

  lemma {:induction false} DistinctCardinality<T>(s: seq<T>)
    requires Distinct(s)
    ensures |set x | x in s| == |s|
    decreases |s|
  {
    if s != [] {
      var front := s[..|s| - 1];
      DistinctCardinality(front);
      assert (set x | x in s) == (set x | x in front) + {s[|s| - 1]};
    }
  }

  lemma {:induction false} SubsetSmaller(a: set<string>, b: set<string>)
    requires a <= b
    ensures |a| <= |b|
    decreases |a|
  {
    if a != {} {
      var y :| y in a;
      SubsetSmaller(a - {y}, b - {y});
    }
  }

  lemma SubsetCardinality(a: set<string>, b: set<string>)
    requires a <= b && |a| == |b|
    ensures a == b
  {
    if a != b {
      var x :| x in b && x !in a;
      SubsetSmaller(a, b - {x});
    }
  }

  /** A well-formed dictionary meets AssignmentOrder's precondition. */
  lemma ValidIsCached(reg: Registry)
    requires reg.Valid()
    ensures Cached(reg.order, reg.records)
  {
    assert forall i :: 0 <= i < |reg.order| ==> reg.order[i] in reg.order;
  }

  /**
   * For a well-formed dictionary the assignment order holds every package
   * exactly once, and nothing else.
   */
  lemma AssignmentOrderPermutes(reg: Registry)
    requires reg.Valid()
    ensures Cached(reg.order, reg.records)
    ensures var a := AssignmentOrder(reg.order, reg.records);
      && Distinct(a)
      && |a| == |reg.order| == |reg.records|
      && forall x :: x in a <==> x in reg.records
  {
    ValidIsCached(reg);
    var a := AssignmentOrder(reg.order, reg.records);
    AssignmentOrderCovers(reg.order, reg.records);
    assert forall x :: x in a <==> x in reg.order by {
      forall x ensures x in a <==> x in reg.order {
        if x in reg.order {
          var i :| 0 <= i < |reg.order| && reg.order[i] == x;
        }
      }
    }
    SameMembersSameLength(a, reg.order);
    OrderCardinality(reg);
  }

  /** Two repetition-free sequences with the same members have the same length. */
  lemma SameMembersSameLength(a: seq<string>, b: seq<string>)
    requires Distinct(a) && Distinct(b)
    requires forall x :: x in a <==> x in b
    ensures |a| == |b|
  {
    DistinctCardinality(a);
    DistinctCardinality(b);
    assert (set x | x in a) == (set x | x in b);
  }

  /** The dictionary holds as many records as its key order lists keys. */
  lemma OrderCardinality(reg: Registry)
    requires reg.Valid()
    ensures |reg.records| == |reg.order|
  {
    DistinctCardinality(reg.order);
    assert reg.records.Keys == set x | x in reg.order;
    assert |reg.records| == |reg.records.Keys|;
  }

  /** A repetition-free order names its elements with pairwise different names. */
  lemma NameMapOfInjective(a: seq<string>)
    requires Distinct(a)
    ensures forall x, y :: x in NameMapOf(a) && y in NameMapOf(a) && x != y ==> NameMapOf(a)[x] != NameMapOf(a)[y]
  {
    var names := NameMapOf(a);
    NameMapOfNumbers(a);
    forall x, y | x in names && y in names && x != y
      ensures names[x] != names[y]
    {
      var i :| 0 <= i < |a| && a[i] == x;
      var j :| 0 <= j < |a| && a[j] == y;
      PackageNameInjective(i + 1, j + 1);
    }
  }

  /** Every name an order of length n gives is the name of a number from 1 to n. */
  lemma NameMapOfWithin(a: seq<string>, x: string)
    requires Distinct(a) && x in NameMapOf(a)
    ensures exists n :: 1 <= n <= |a| && NameMapOf(a)[x] == PackageName(n)
  {
    NameMapOfNumbers(a);
    var i :| 0 <= i < |a| && a[i] == x;
    assert NameMapOf(a)[a[i]] == PackageName(i + 1);
  }

  /** A repetition-free order of length n gives the name of every number from 1 to n. */
  lemma NameMapOfOnto(a: seq<string>, n: nat)
    requires Distinct(a) && 1 <= n <= |a|
    ensures exists x :: x in NameMapOf(a) && NameMapOf(a)[x] == PackageName(n)
  {
    NameMapOfNumbers(a);
    assert a[n - 1] in a;
    assert NameMapOf(a)[a[n - 1]] == PackageName(n);
  }

  /**
   * NEW_PACKAGE_NAMES for a well-formed dictionary: every package and nothing
   * else is named, no two packages share a name, and the names given are
   * exactly package00000001 up to the number of packages.
   */
  lemma PackageNamesAreNumbering(reg: Registry)
    requires reg.Valid()
    ensures Cached(reg.order, reg.records)
    ensures var names := NameMapOf(AssignmentOrder(reg.order, reg.records));
      && (forall x :: x in names <==> x in reg.records)
      && (forall x, y :: x in names && y in names && x != y ==> names[x] != names[y])
      && (forall x :: x in names ==> exists n :: 1 <= n <= |reg.records| && names[x] == PackageName(n))
      && (forall n :: 1 <= n <= |reg.records| ==> exists x :: x in names && names[x] == PackageName(n))
  {
    AssignmentOrderPermutes(reg);
    var a := AssignmentOrder(reg.order, reg.records);
    var names := NameMapOf(a);
    NameMapOfNumbers(a);
    NameMapOfInjective(a);
    forall x | x in names
      ensures exists n :: 1 <= n <= |reg.records| && names[x] == PackageName(n)
    {
      NameMapOfWithin(a, x);
    }
    forall n | 1 <= n <= |reg.records|
      ensures exists x :: x in names && names[x] == PackageName(n)
    {
      NameMapOfOnto(a, n);
    }
  }

  lemma PrefixSnoc<T>(s: seq<T>, j: nat)
    requires j < |s|
    ensures s[..j + 1] == s[..j] + [s[j]]
  {
  }

  /** Noting two runs of edges is noting their concatenation. */
  lemma {:induction false} NoteDepsAppend(named: seq<string>, a: seq<(DepKey, string)>, b: seq<(DepKey, string)>, cache: map<string, Record>)
    ensures NoteDeps(named, a + b, cache) == NoteDeps(NoteDeps(named, a, cache), b, cache)
    decreases |b|
  {
    if b != [] {
      var front := b[..|b| - 1];
      var e := b[|b| - 1];
      NoteDepsAppend(named, a, front, cache);
      assert a + b == (a + front) + [e];
      assert b == front + [e];
      NoteDepsSnoc(named, a + front, e, cache);
      NoteDepsSnoc(NoteDeps(named, a, cache), front, e, cache);
    } else {
      assert a + b == a;
    }
  }

  /**
   * Lines 94-96: name the dependencies of one category that are packages and
   * not yet named, in list order.
   */
  method NameCategory(cache: map<string, Record>, rec: Record, key: DepKey,
                      names0: map<string, string>, pkgNr0: nat, ghost named: seq<string>)
    returns (names: map<string, string>, pkgNr: nat)
    requires key in rec.deps
    requires names0 == NameMapOf(named) && pkgNr0 == |named| + 1
    ensures names == NameMapOf(NoteDeps(named, KeyEdges(rec, key), cache))
    ensures pkgNr == |NoteDeps(named, KeyEdges(rec, key), cache)| + 1
  {
    names, pkgNr := names0, pkgNr0;
    ghost var cur := named;
    ghost var edges := KeyEdges(rec, key);
    var deps := rec.deps[key];
    for j := 0 to |deps|
      invariant cur == NoteDeps(named, edges[..j], cache)
      invariant names == NameMapOf(cur) && pkgNr == |cur| + 1
    {
      PrefixSnoc(edges, j);
      NoteDepsSnoc(named, edges[..j], edges[j], cache);
      var d := deps[j];
      assert edges[j] == (key, d);
      NameMapOfHas(cur, d);
      if d in cache && d !in names {
        names := names[d := PackageName(pkgNr)];
        pkgNr := pkgNr + 1;
        NameMapOfSnoc(cur, d);
        cur := cur + [d];
      }
    }
    assert edges[..|deps|] == edges;
  }

  /**
   * Lines 93-96: name, in category then list order, the dependencies of one
   * package that are packages and not yet named.
   */
  method NameDependencies(cache: map<string, Record>, rec: Record, names0: map<string, string>, pkgNr0: nat, ghost named: seq<string>)
    returns (names: map<string, string>, pkgNr: nat)
    requires Complete(rec)
    requires names0 == NameMapOf(named) && pkgNr0 == |named| + 1
    ensures names == NameMapOf(NoteDeps(named, Edges(rec), cache))
    ensures pkgNr == |NoteDeps(named, Edges(rec), cache)| + 1
  {
    names, pkgNr := names0, pkgNr0;
    for k := 0 to |DependKeys|
      invariant names == NameMapOf(NoteDeps(named, EdgesUpTo(rec, k), cache))
      invariant pkgNr == |NoteDeps(named, EdgesUpTo(rec, k), cache)| + 1
    {
      var key := DependKeys[k];
      ghost var cur := NoteDeps(named, EdgesUpTo(rec, k), cache);
      NoteDepsAppend(named, EdgesUpTo(rec, k), KeyEdges(rec, key), cache);
      names, pkgNr := NameCategory(cache, rec, key, names, pkgNr, cur);
    }
  }

  /**
   * Lines 85-96: NEW_PACKAGE_NAMES and the final PKG_NR. The names are those
   * of the assignment order, and PKG_NR ends one past the number of packages.
   */
  method AssignPackageNames(reg: Registry) returns (names: map<string, string>, pkgNr: nat)
    requires reg.Valid()
    ensures Cached(reg.order, reg.records)
    ensures names == NameMapOf(AssignmentOrder(reg.order, reg.records))
    ensures pkgNr == |reg.records| + 1
  {
    ValidIsCached(reg);
    names, pkgNr := map[], 1;
    ghost var named: seq<string> := [];
    assert reg.order[..0] == [];
    for i := 0 to |reg.order|
      invariant Cached(reg.order[..i], reg.records)
      invariant named == AssignmentOrder(reg.order[..i], reg.records)
      invariant names == NameMapOf(named) && pkgNr == |named| + 1
    {
      AssignmentOrderSnoc(reg.order, reg.records, i);
      var p := reg.order[i];
      NameMapOfHas(named, p);
      if p !in names {
        names := names[p := PackageName(pkgNr)];
        pkgNr := pkgNr + 1;
        assert (named + [p])[..|named|] == named;
        names, pkgNr := NameDependencies(reg.records, reg.records[p], names, pkgNr, named + [p]);
      }
      named := NotePackage(named, p, reg.records);
    }
    assert reg.order[..|reg.order|] == reg.order;
    AssignmentOrderPermutes(reg);
  }

  /** A record whose only non-empty category is `depend`. */
  function DependsOn(dir: string, deps: seq<string>): (r: Record)
    ensures Complete(r) && r.deps[Depend] == deps
    ensures forall k: DepKey :: k != Depend ==> r.deps[k] == []
  {
    KeysListed();
    Record(dir, map k: DepKey | k in DependKeys :: if k == Depend then deps else [])
  }

  /** Only the `depend` category contributes edges. */
  lemma DependsOnEdges(dir: string, deps: seq<string>)
    ensures Edges(DependsOn(dir, deps)) == KeyEdges(DependsOn(dir, deps), Depend)
  {
    var r := DependsOn(dir, deps);
    assert EdgesUpTo(r, 1) == KeyEdges(r, Depend);
    assert EdgesUpTo(r, 2) == EdgesUpTo(r, 1);
    assert EdgesUpTo(r, 3) == EdgesUpTo(r, 2);
    assert EdgesUpTo(r, 4) == EdgesUpTo(r, 3);
    assert EdgesUpTo(r, 5) == EdgesUpTo(r, 4);
    assert EdgesUpTo(r, 6) == EdgesUpTo(r, 5);
    assert EdgesUpTo(r, 7) == EdgesUpTo(r, 6);
  }

  /** Two packages: alpha depends on beta and on a library outside the workspace. */
  function AlphaBeta(): Registry {
    Registry(["alpha", "beta"], map["alpha" := DependsOn("a", ["beta", "external_lib"]), "beta" := DependsOn("b", [])])
  }

  /** alpha's turn names alpha and then beta; external_lib is not a package and gets no name. */
  lemma AlphaTurn()
    ensures Cached(AlphaBeta().order, AlphaBeta().records)
    ensures NotePackage([], "alpha", AlphaBeta().records) == ["alpha", "beta"]
  {
    var cache := AlphaBeta().records;
    var alpha := cache["alpha"];
    DependsOnEdges("a", ["beta", "external_lib"]);
    var edges := Edges(alpha);
    assert edges == [(Depend, "beta"), (Depend, "external_lib")];
    assert edges[..1] == [(Depend, "beta")] && edges[..1][..0] == [];
    assert NoteDeps(["alpha"], edges[..1], cache) == ["alpha", "beta"];
    assert NoteDeps(["alpha"], edges, cache) == ["alpha", "beta"];
    assert [] + ["alpha"] == ["alpha"];
  }

  lemma AlphaBetaOrder()
    ensures AlphaBeta().Valid()
    ensures Cached(AlphaBeta().order, AlphaBeta().records)
    ensures AssignmentOrder(AlphaBeta().order, AlphaBeta().records) == ["alpha", "beta"]
  {
    var reg := AlphaBeta();
    AlphaTurn();
    assert reg.order[..1] == ["alpha"] && reg.order[..1][..0] == [];
    assert AssignmentOrder(reg.order[..1], reg.records) == ["alpha", "beta"];
  }

  lemma NameMapOfTwo(a: string, b: string)
    ensures NameMapOf([a, b]) == map[a := PackageName(1), b := PackageName(2)]
  {
    assert [a, b][..1] == [a] && [a][..0] == [];
    assert NameMapOf([a]) == map[a := PackageName(1)];
  }

  /** In the example alpha is package00000001 and beta, named as its dependency, package00000002. */
  lemma AlphaBetaNumbering()
    ensures AlphaBeta().Valid()
    ensures Cached(AlphaBeta().order, AlphaBeta().records)
    ensures NameMapOf(AssignmentOrder(AlphaBeta().order, AlphaBeta().records)) == map["alpha" := PackageName(1), "beta" := PackageName(2)]
  {
    AlphaBetaOrder();
    NameMapOfTwo("alpha", "beta");
  }

  /**
   * Four packages in dictionary order alpha, beta, gamma, delta; alpha
   * depends on beta and beta on delta. beta is already named when its turn
   * comes, so its dependency delta is not numbered then: delta waits for its
   * own turn, after gamma.
   */
  function Chain(): Registry {
    Registry(["alpha", "beta", "gamma", "delta"],
      map["alpha" := DependsOn("a", ["beta"]), "beta" := DependsOn("b", ["delta"]),
          "gamma" := DependsOn("g", []), "delta" := DependsOn("d", [])])
  }

  /** A package without dependencies only takes the next number on its turn. */
  lemma LoneTurn(named: seq<string>, p: string, cache: map<string, Record>, dir: string)
    requires p in cache && cache[p] == DependsOn(dir, []) && p !in named
    ensures NotePackage(named, p, cache) == named + [p]
  {
    DependsOnEdges(dir, []);
  }

  /** The turn of a package already named changes nothing. */
  lemma NamedTurn(named: seq<string>, p: string, cache: map<string, Record>)
    requires p in cache && Complete(cache[p]) && p in named
    ensures NotePackage(named, p, cache) == named
  {
  }

  /** An unnamed package whose only dependency is an unnamed package names itself, then that dependency. */
  lemma SingleDepTurn(named: seq<string>, p: string, q: string, cache: map<string, Record>, dir: string)
    requires p in cache && cache[p] == DependsOn(dir, [q]) && p !in named
    requires q in cache && q !in named && q != p
    ensures NotePackage(named, p, cache) == named + [p, q]
  {
    DependsOnEdges(dir, [q]);
    var e := [(Depend, q)];
    assert Edges(cache[p]) == e;
    assert e[..0] == [];
    assert q !in named + [p];
    assert NoteDeps(named + [p], e, cache) == named + [p] + [q];
  }

  /** The four turns of the example, for any dictionary holding its records under any four distinct names. */
  lemma ChainTurns(cache: map<string, Record>, a: string, b: string, c: string, d: string, dirs: seq<string>)
    requires a != b && a != c && a != d && b != c && b != d && c != d && |dirs| == 4
    requires a in cache && cache[a] == DependsOn(dirs[0], [b])
    requires b in cache && cache[b] == DependsOn(dirs[1], [d])
    requires c in cache && cache[c] == DependsOn(dirs[2], [])
    requires d in cache && cache[d] == DependsOn(dirs[3], [])
    ensures NotePackage([], a, cache) == [a, b]
    ensures NotePackage([a, b], b, cache) == [a, b]
    ensures NotePackage([a, b], c, cache) == [a, b, c]
    ensures NotePackage([a, b, c], d, cache) == [a, b, c, d]
  {
    SingleDepTurn([], a, b, cache, dirs[0]);
    assert [] + [a, b] == [a, b];
    NamedTurn([a, b], b, cache);
    LoneTurn([a, b], c, cache, dirs[2]);
    assert [a, b] + [c] == [a, b, c];
    LoneTurn([a, b, c], d, cache, dirs[3]);
    assert [a, b, c] + [d] == [a, b, c, d];
  }

  /** The assignment order of four packages whose turns are the ones above. */
  lemma ChainOrderOf(order: seq<string>, cache: map<string, Record>, a: string, b: string, c: string, d: string)
    requires order == [a, b, c, d] && Cached(order, cache)
    requires a in cache && b in cache && c in cache && d in cache
    requires NotePackage([], a, cache) == [a, b]
    requires NotePackage([a, b], b, cache) == [a, b]
    requires NotePackage([a, b], c, cache) == [a, b, c]
    requires NotePackage([a, b, c], d, cache) == [a, b, c, d]
    ensures AssignmentOrder(order, cache) == [a, b, c, d]
  {
    assert [a][..0] == [] && [a, b][..1] == [a] && [a, b, c][..2] == [a, b] && order[..3] == [a, b, c];
    assert AssignmentOrder([a], cache) == [a, b];
    assert AssignmentOrder([a, b], cache) == [a, b];
    assert AssignmentOrder([a, b, c], cache) == [a, b, c];
  }

  /** The example is a well-formed dictionary holding the four records. */
  lemma ChainRecords()
    ensures Chain().Valid()
    ensures var m := Chain().records;
      && "alpha" in m && m["alpha"] == DependsOn("a", ["beta"])
      && "beta" in m && m["beta"] == DependsOn("b", ["delta"])
      && "gamma" in m && m["gamma"] == DependsOn("g", [])
      && "delta" in m && m["delta"] == DependsOn("d", [])
  {
    FourRecords("alpha", "beta", "gamma", "delta",
                DependsOn("a", ["beta"]), DependsOn("b", ["delta"]), DependsOn("g", []), DependsOn("d", []));
  }

  /** A dictionary of four complete records under four distinct names is well formed and holds them. */
  lemma FourRecords(a: string, b: string, c: string, d: string, ra: Record, rb: Record, rc: Record, rd: Record)
    requires a != b && a != c && a != d && b != c && b != d && c != d
    requires Complete(ra) && Complete(rb) && Complete(rc) && Complete(rd)
    ensures var reg := Registry([a, b, c, d], map[a := ra, b := rb, c := rc, d := rd]);
      && reg.Valid()
      && a in reg.records && reg.records[a] == ra && b in reg.records && reg.records[b] == rb
      && c in reg.records && reg.records[c] == rc && d in reg.records && reg.records[d] == rd
  {
  }

  lemma ChainOrder()
    ensures Chain().Valid()
    ensures Cached(Chain().order, Chain().records)
    ensures AssignmentOrder(Chain().order, Chain().records) == ["alpha", "beta", "gamma", "delta"]
  {
    var reg := Chain();
    ChainRecords();
    ValidIsCached(reg);
    ChainTurns(reg.records, "alpha", "beta", "gamma", "delta", ["a", "b", "g", "d"]);
    ChainOrderOf(reg.order, reg.records, "alpha", "beta", "gamma", "delta");
  }

  /** In that example gamma is package00000003 and delta package00000004. */
  lemma ChainNumbering()
    ensures Chain().Valid()
    ensures Cached(Chain().order, Chain().records)
    ensures var names := NameMapOf(AssignmentOrder(Chain().order, Chain().records));
      && "gamma" in names && names["gamma"] == PackageName(3)
      && "delta" in names && names["delta"] == PackageName(4)
  {
    ChainOrder();
    var a: seq<string> := ["alpha", "beta", "gamma", "delta"];
    assert a[..3] == ["alpha", "beta", "gamma"];
    assert ["alpha", "beta", "gamma"][..2] == ["alpha", "beta"];
  }
}
