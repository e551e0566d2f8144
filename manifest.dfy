/**
 * Reading one package manifest (package.xml): the dependency categories, the
 * parsed document as the XML library hands it over, and the record the scan
 * stores for a package.
 */
module Manifest {
  import opened Wrappers

  /** The dependency categories a manifest may declare. */
  datatype DepKey =
    | Depend
    | BuildtoolDepend
    | BuildDepend
    | BuildExportDepend
    | ExecDepend
    | TestDepend
    | DocDepend

  /** DEPEND_KEYS: every category, in the order the script visits them. */
  const DependKeys: seq<DepKey> :=
    [Depend, BuildtoolDepend, BuildDepend, BuildExportDepend, ExecDepend, TestDepend, DocDepend]

  /** The element name of a category in package.xml. */
  function Tag(k: DepKey): string
  {
    match k
    case Depend => "depend"
    case BuildtoolDepend => "buildtool_depend"
    case BuildDepend => "build_depend"
    case BuildExportDepend => "build_export_depend"
    case ExecDepend => "exec_depend"
    case TestDepend => "test_depend"
    case DocDepend => "doc_depend"
  }

  /** Where a category stands in DEPEND_KEYS: every category is listed. */
  function KeyIndex(k: DepKey): (i: nat)
    ensures i < |DependKeys| && DependKeys[i] == k
  {
    match k
    case Depend => 0
    case BuildtoolDepend => 1
    case BuildDepend => 2
    case BuildExportDepend => 3
    case ExecDepend => 4
    case TestDepend => 5
    case DocDepend => 6
  }

  /** DEPEND_KEYS lists no category twice. */
  lemma DependKeysDistinct()
    ensures forall i, j :: 0 <= i < j < |DependKeys| ==> DependKeys[i] != DependKeys[j]
  {
  }

  /** DEPEND_KEYS lists every category. */
  lemma KeysListed()
    ensures forall k: DepKey :: k in DependKeys
  {
    forall k: DepKey ensures k in DependKeys {
      var i := KeyIndex(k);
    }
  }

  /** Distinct categories have distinct element names, none holding '>'. */
  lemma TagInjective(k1: DepKey, k2: DepKey)
    ensures Tag(k1) == Tag(k2) ==> k1 == k2
    ensures '>' !in Tag(k1) && Tag(k1) != ""
  {
  }

  /**
   * An element of the parsed document, in document order: its tag and the
   * text of its first child node (None when the element has no child).
   */
  datatype Element = Element(tag: string, text: Option<string>)

  /** `document.getElementsByTagName(tag)`: the elements with that tag, in document order. */
  function ElementsByTag(doc: seq<Element>, tag: string): seq<Element>
    decreases |doc|
  {
    if doc == [] then []
    else
      var last := doc[|doc| - 1];
      if last.tag == tag then ElementsByTag(doc[..|doc| - 1], tag) + [last]
      else ElementsByTag(doc[..|doc| - 1], tag)
  }

  /** The elements found are exactly the document's elements with that tag. */
  lemma {:induction false} ElementsByTagMembers(doc: seq<Element>, tag: string)
    ensures forall e :: e in ElementsByTag(doc, tag) <==> e in doc && e.tag == tag
    decreases |doc|
  {
    if doc != [] {
      ElementsByTagMembers(doc[..|doc| - 1], tag);
      assert doc == doc[..|doc| - 1] + [doc[|doc| - 1]];
    }
  }

  /** The record PACKAGE_CACHE holds per package: its directory and one list per category. */
  datatype Record = Record(dir: string, deps: map<DepKey, seq<string>>)

  /** The record has a list for every category. */
  ghost predicate Complete(rec: Record) {
    forall k: DepKey :: k in rec.deps
  }

  /** The edges of one category: (category, dependency name) in list order. */
  function KeyEdges(rec: Record, k: DepKey): (r: seq<(DepKey, string)>)
    requires k in rec.deps
    ensures |r| == |rec.deps[k]|
    ensures forall i :: 0 <= i < |r| ==> r[i] == (k, rec.deps[k][i])
  {
    seq(|rec.deps[k]|, i requires 0 <= i < |rec.deps[k]| => (k, rec.deps[k][i]))
  }

  /** The edges of the first n categories of DEPEND_KEYS, category by category. */
  function EdgesUpTo(rec: Record, n: nat): seq<(DepKey, string)>
    requires Complete(rec) && n <= |DependKeys|
  {
    if n == 0 then [] else EdgesUpTo(rec, n - 1) + KeyEdges(rec, DependKeys[n - 1])
  }

  /**
   * The dependency edges a record declares, in the order the script visits
   * them: DEPEND_KEYS order, then list order, duplicates kept.
   */
  function Edges(rec: Record): seq<(DepKey, string)>
    requires Complete(rec)
  {
    EdgesUpTo(rec, |DependKeys|)
  }

  lemma {:induction false} EdgesUpToMembers(rec: Record, n: nat)
    requires Complete(rec) && n <= |DependKeys|
    ensures forall k, d :: (k, d) in EdgesUpTo(rec, n) <==> k in DependKeys[..n] && d in rec.deps[k]
  {
    if n > 0 {
      EdgesUpToMembers(rec, n - 1);
      var key := DependKeys[n - 1];
      assert DependKeys[..n] == DependKeys[..n - 1] + [key];
      forall k, d ensures (k, d) in KeyEdges(rec, key) <==> k == key && d in rec.deps[k] {
        if k == key && d in rec.deps[k] {
          var i :| 0 <= i < |rec.deps[k]| && rec.deps[k][i] == d;
          assert KeyEdges(rec, key)[i] == (k, d);
        }
      }
    }
  }

  /** An edge (k, d) is listed exactly when d is in the record's list for category k. */
  lemma EdgesMembers(rec: Record)
    requires Complete(rec)
    ensures forall k, d :: (k, d) in Edges(rec) <==> d in rec.deps[k]
  {
    EdgesUpToMembers(rec, |DependKeys|);
    assert DependKeys[..|DependKeys|] == DependKeys;
    forall k: DepKey ensures k in DependKeys {
      var i := KeyIndex(k);
    }
  }

  /** Why a qualifying package.xml aborts the run. */
  datatype ParseError =
    | Malformed(root: string)             // the XML library rejects the file
    | NoNameElement(root: string)         // no <name> element: index [0] fails
    | EmptyElement(root: string, tag: string)  // element without child node: childNodes[0] fails

  /** The first-child texts of the elements, or None if one of them has no child. */
  function Texts(elems: seq<Element>): (r: Option<seq<string>>)
    ensures r.Some? <==> forall i :: 0 <= i < |elems| ==> elems[i].text.Some?
    ensures r.Some? ==> |r.value| == |elems|
    ensures r.Some? ==> forall i :: 0 <= i < |elems| ==> elems[i].text == Some(r.value[i])
    decreases |elems|
  {
    if elems == [] then Some([])
    else
      var last := elems[|elems| - 1];
      match Texts(elems[..|elems| - 1])
      case None => None
      case Some(ts) => if last.text.None? then None else Some(ts + [last.text.value])
  }

  /** The lists of the given categories, in turn, or the first category with an element without text. */
  function DepLists(doc: seq<Element>, keys: seq<DepKey>): (r: Result<map<DepKey, seq<string>>, DepKey>)
    ensures r.Ok? ==> forall i :: 0 <= i < |keys| ==>
      (keys[i] in r.value && Texts(ElementsByTag(doc, Tag(keys[i]))) == Some(r.value[keys[i]]))
    ensures r.Err? ==> r.error in keys && Texts(ElementsByTag(doc, Tag(r.error))).None?
    decreases |keys|
  {
    if keys == [] then Ok(map[])
    else
      var key := keys[|keys| - 1];
      var front := keys[..|keys| - 1];
      assert forall i :: 0 <= i < |front| ==> front[i] == keys[i];
      match DepLists(doc, front)
      case Err(k) => Err(k)
      case Ok(m) =>
        match Texts(ElementsByTag(doc, Tag(key)))
        case None => Err(key)
        case Some(ts) => Ok(m[key := ts])
  }

  /** Once a category fails, the later categories do not change the verdict. */
  lemma {:induction false} DepListsErrSticky(doc: seq<Element>, keys: seq<DepKey>, i: nat)
    requires i <= |keys|
    requires DepLists(doc, keys[..i]).Err?
    ensures DepLists(doc, keys) == DepLists(doc, keys[..i])
    decreases |keys| - i
  {
    if i < |keys| {
      assert keys[..i + 1][..i] == keys[..i];
      DepListsErrSticky(doc, keys, i + 1);
    } else {
      assert keys[..i] == keys;
    }
  }

  /**
   * What lines 69-75 of the script compute from a parsed package.xml found in
   * directory root: the package name (text of the first <name>) and the record.
   */
  function ParseManifest(root: string, doc: seq<Element>): (r: Result<(string, Record), ParseError>)
    ensures r == Err(NoNameElement(root)) <==> ElementsByTag(doc, "name") == []
    ensures r.Ok? ==>
      (ElementsByTag(doc, "name") != [] && ElementsByTag(doc, "name")[0].text == Some(r.value.0))
    ensures r.Ok? ==> r.value.1.dir == root && Complete(r.value.1)
  {
    var names := ElementsByTag(doc, "name");
    if names == [] then Err(NoNameElement(root))
    else if names[0].text.None? then Err(EmptyElement(root, "name"))
    else
      match DepLists(doc, DependKeys)
      case Err(k) => Err(EmptyElement(root, Tag(k)))
      case Ok(deps) =>
        assert forall k: DepKey :: k in deps by {
          forall k: DepKey ensures k in deps {
            var i := KeyIndex(k);
          }
        }
        Ok((names[0].text.value, Record(root, deps)))
  }

  /** An accepted manifest lists, for each category, the texts of its elements in document order. */
  lemma ParseManifestLists(root: string, doc: seq<Element>)
    ensures ParseManifest(root, doc).Ok? ==> forall k: DepKey ::
      Texts(ElementsByTag(doc, Tag(k))) == Some(ParseManifest(root, doc).value.1.deps[k])
  {
    var names := ElementsByTag(doc, "name");
    if names != [] && names[0].text.Some? {
      var dl := DepLists(doc, DependKeys);
      if dl.Ok? {
        forall k: DepKey ensures k in dl.value && Texts(ElementsByTag(doc, Tag(k))) == Some(dl.value[k]) {
          var i := KeyIndex(k);
        }
      }
    }
  }

  /**
   * A manifest is accepted exactly when it has a <name> with text and every
   * dependency element has text; each category then lists the element texts in
   * document order, and a category without elements gets an empty list.
   */
  lemma ParseManifestAccepts(root: string, doc: seq<Element>)
    ensures ParseManifest(root, doc).Ok? <==>
      && ElementsByTag(doc, "name") != []
      && ElementsByTag(doc, "name")[0].text.Some?
      && forall e :: e in doc && e.text.None? ==> forall k: DepKey :: e.tag != Tag(k)
    ensures ParseManifest(root, doc).Ok? ==> forall k: DepKey ::
      var items := ElementsByTag(doc, Tag(k));
      var list := ParseManifest(root, doc).value.1.deps[k];
      |list| == |items| && (items == [] ==> list == []) &&
      forall j :: 0 <= j < |items| ==> items[j].text == Some(list[j])
  {
    var names := ElementsByTag(doc, "name");
    ParseManifestLists(root, doc);
    forall k: DepKey {
      ElementsByTagMembers(doc, Tag(k));
    }
    if names != [] && names[0].text.Some? {
      var dl := DepLists(doc, DependKeys);
      if dl.Err? {
        var items := ElementsByTag(doc, Tag(dl.error));
        var j :| 0 <= j < |items| && items[j].text.None?;
        assert items[j] in doc;
      } else {
        forall e | e in doc && e.text.None? ensures forall k: DepKey :: e.tag != Tag(k) {
          forall k: DepKey ensures e.tag != Tag(k) {
            var i := KeyIndex(k);
          }
        }
      }
    }
  }

  /** Lines 74-75: the first-child texts of the elements, in order; an element without a child aborts. */
  method CollectTexts(items: seq<Element>) returns (r: Option<seq<string>>)
    ensures r == Texts(items)
  {
    var list: seq<string> := [];
    for j := 0 to |items|
      invariant Texts(items[..j]) == Some(list)
    {
      assert items[..j + 1][..j] == items[..j];
      if items[j].text.None? {
        assert items[..j + 1][j] == items[j];
        assert Texts(items) == None;
        return None;
      }
      list := list + [items[j].text.value];
    }
    assert items[..|items|] == items;
    r := Some(list);
  }

  /**
   * Lines 71-75: for each category of DEPEND_KEYS in turn, collect the texts of
   * its elements in document order; the first element without a child node aborts.
   */
  method CollectDeps(doc: seq<Element>) returns (r: Result<map<DepKey, seq<string>>, DepKey>)
    ensures r == DepLists(doc, DependKeys)
  {
    var deps: map<DepKey, seq<string>> := map[];
    var i := 0;
    while i < |DependKeys|
      invariant 0 <= i <= |DependKeys|
      invariant DepLists(doc, DependKeys[..i]) == Ok(deps)
    {
      var key := DependKeys[i];
      var texts := CollectTexts(ElementsByTag(doc, Tag(key)));
      assert DependKeys[..i + 1][..i] == DependKeys[..i];
      if texts.None? {
        DepListsErrSticky(doc, DependKeys, i + 1);
        return Err(key);
      }
      deps := deps[key := texts.value];
      i := i + 1;
    }
    assert DependKeys[..i] == DependKeys;
    r := Ok(deps);
  }

  /** Lines 69-75: read the name, then every category's list; the first missing text aborts. */
  method ReadManifest(root: string, doc: seq<Element>) returns (r: Result<(string, Record), ParseError>)
    ensures r == ParseManifest(root, doc)
  {
    var names := ElementsByTag(doc, "name");
    if names == [] {
      return Err(NoNameElement(root));
    }
    if names[0].text.None? {
      return Err(EmptyElement(root, "name"));
    }
    var deps := CollectDeps(doc);
    match deps
    case Err(k) =>
      r := Err(EmptyElement(root, Tag(k)));
    case Ok(m) =>
      r := Ok((names[0].text.value, Record(root, m)));
  }
}
