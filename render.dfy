/**
 * The anonymised package.xml (lines 137-153 of tools/create_workspace.py):
 * the lines written for one package, and a reader for single-element lines
 * under which the written file reads back as the renamed record.
 */
module Render {
  import opened Wrappers
  import opened Manifest

  /** `'  <%s>%s</%s>\n' % (tag, text, tag)`: one element on a line of its own. */
  function ElementLine(tag: string, text: string): string
  {
    "  <" + tag + ">" + text + "</" + tag + ">\n"
  }

  /** Line 151: the line of one surviving dependency, under its new name. */
  function DepLine(k: DepKey, newDep: string): string
  {
    ElementLine(Tag(k), newDep)
  }

  const XmlDeclLine: string := "<?xml version=\"1.0\"?>\n"
  const PackageOpenLine: string := "<package format=\"2\">\n"
  const MaintainerLine: string := AttrElementLine("maintainer", "email=\"someone@somewhere.there\"", "Some User")
  const PackageCloseLine: string := "</package>\n"
  /** Lines 145-146: the optional build-tool dependency on catkin. */
  const CatkinLine: string := DepLine(BuildtoolDepend, "catkin")

  /** Lines 137-143: the fixed opening lines, with the new name. */
  function HeaderLines(newName: string): seq<string>
  {
    [XmlDeclLine, PackageOpenLine] + InfoLines(newName)
  }

  /** Lines 139-143: the name, version, description, maintainer and license elements. */
  function InfoLines(newName: string): seq<string>
  {
    [ElementLine("name", newName), ElementLine("version", "1.0.0"),
     ElementLine("description", "Sample package for benchmark"), MaintainerLine, ElementLine("license", "BSD")]
  }

  /**
   * Lines 149-150 for one category: the dependencies that have a new name,
   * renamed, in list order (repetitions kept); the others are dropped.
   */
  function Rename(deps: seq<string>, names: map<string, string>): seq<string>
    decreases |deps|
  {
    if deps == [] then []
    else
      var front := Rename(deps[..|deps| - 1], names);
      var d := deps[|deps| - 1];
      if d in names then front + [names[d]] else front
  }

  /** The dependency lines of one category. */
  function KeyLines(k: DepKey, deps: seq<string>, names: map<string, string>): (r: seq<string>)
    ensures |r| == |Rename(deps, names)|
  {
    var renamed := Rename(deps, names);
    seq(|renamed|, i requires 0 <= i < |renamed| => DepLine(k, renamed[i]))
  }

  /** The lines of every category of DEPEND_KEYS, one block per category, in order. */
  function KeyBlocks(rec: Record, names: map<string, string>): (r: seq<seq<string>>)
    requires Complete(rec)
    ensures |r| == |DependKeys|
  {
    seq(|DependKeys|, i requires 0 <= i < |DependKeys| => KeyLines(DependKeys[i], rec.deps[DependKeys[i]], names))
  }

  /** The first n blocks, one after the other. */
  function Concat(blocks: seq<seq<string>>, n: nat): seq<string>
    requires n <= |blocks|
  {
    if n == 0 then [] else Concat(blocks, n - 1) + blocks[n - 1]
  }

  /** Lines 137-153: every line written to the new package.xml, in order. */
  function RenderManifest(rec: Record, newName: string, names: map<string, string>, addCatkin: bool): seq<string>
    requires Complete(rec)
  {
    OpeningLines(newName, addCatkin) + Concat(KeyBlocks(rec, names), |DependKeys|) + [PackageCloseLine]
  }

  /** Lines 137-146: the fixed opening lines and the optional catkin line. */
  function OpeningLines(newName: string, addCatkin: bool): seq<string>
  {
    HeaderLines(newName) + (if addCatkin then [CatkinLine] else [])
  }

  // ---------------------------------------------------------------------------
  // Rename: what survives, and under which name
  // ---------------------------------------------------------------------------

  lemma RenameSnoc(deps: seq<string>, names: map<string, string>, d: string)
    ensures Rename(deps + [d], names) == if d in names then Rename(deps, names) + [names[d]] else Rename(deps, names)
  {
    assert (deps + [d])[..|deps|] == deps;
  }

  /** Every dependency with a new name appears under it. */
  lemma {:induction false} RenameKeeps(deps: seq<string>, names: map<string, string>)
    ensures forall j :: 0 <= j < |deps| && deps[j] in names ==> names[deps[j]] in Rename(deps, names)
    decreases |deps|
  {
    if deps != [] {
      var front := deps[..|deps| - 1];
      RenameKeeps(front, names);
      RenameSnoc(front, names, deps[|deps| - 1]);
      assert front + [deps[|deps| - 1]] == deps;
      forall j | 0 <= j < |front| && deps[j] in names
        ensures names[deps[j]] in Rename(deps, names)
      {
        assert front[j] == deps[j];
      }
    }
  }

  /** Nothing else appears: each renamed entry is the new name of a dependency of the list. */
  lemma {:induction false} RenameOnly(deps: seq<string>, names: map<string, string>, x: string)
    requires x in Rename(deps, names)
    ensures exists j :: 0 <= j < |deps| && deps[j] in names && names[deps[j]] == x
    decreases |deps|
  {
    var front := deps[..|deps| - 1];
    var d := deps[|deps| - 1];
    RenameSnoc(front, names, d);
    assert front + [d] == deps;
    if x in Rename(front, names) {
      RenameOnly(front, names, x);
      var j :| 0 <= j < |front| && front[j] in names && names[front[j]] == x;
      assert deps[j] == front[j];
    } else {
      assert deps[|deps| - 1] in names && names[deps[|deps| - 1]] == x;
    }
  }

  /** When every dependency has a new name, all of them survive, in order. */
  lemma {:induction false} RenameAll(deps: seq<string>, names: map<string, string>)
    requires forall j :: 0 <= j < |deps| ==> deps[j] in names
    ensures |Rename(deps, names)| == |deps|
    ensures forall j :: 0 <= j < |deps| ==> Rename(deps, names)[j] == names[deps[j]]
    decreases |deps|
  {
    if deps != [] {
      var front := deps[..|deps| - 1];
      RenameAll(front, names);
      RenameSnoc(front, names, deps[|deps| - 1]);
      assert front + [deps[|deps| - 1]] == deps;
    }
  }

  // ---------------------------------------------------------------------------
  // Reading single-element lines back
  // ---------------------------------------------------------------------------

  /** The first position from i on that ends an element name (' ' or '>'), or |line|. */
  function NameEnd(line: string, i: nat): (j: nat)
    requires i <= |line|
    ensures i <= j <= |line|
    decreases |line| - i
  {
    if i == |line| || line[i] == ' ' || line[i] == '>' then i else NameEnd(line, i + 1)
  }

  /** The first position from i on holding '>', or |line|. */
  function TagClose(line: string, i: nat): (j: nat)
    requires i <= |line|
    ensures i <= j <= |line|
    decreases |line| - i
  {
    if i == |line| || line[i] == '>' then i else TagClose(line, i + 1)
  }

  /**
   * A line holding one indented element `  <tag attrs>text</tag>`: its tag and
   * text; None for any other line (the declaration, the package element's
   * own opening and closing lines).
   */
  function ReadElementLine(line: string): Option<Element>
  {
    if |line| < 3 || line[..3] != "  <" then None
    else
      var tag := line[3..NameEnd(line, 3)];
      var open := TagClose(line, 3);
      var closing := "</" + tag + ">\n";
      if open + 1 + |closing| <= |line| && line[|line| - |closing|..] == closing
      then Some(Element(tag, Some(line[open + 1..|line| - |closing|])))
      else None
  }

  lemma {:induction false} NameEndAt(line: string, i: nat, j: nat)
    requires i <= j < |line| && line[j] == '>'
    requires forall m :: i <= m < j ==> line[m] != ' ' && line[m] != '>'
    ensures NameEnd(line, i) == j && TagClose(line, i) == j
    decreases j - i
  {
    if i < j {
      NameEndAt(line, i + 1, j);
    }
  }

  /** Reading an element line gives back its tag and its text. */
  lemma ElementLineRoundTrip(tag: string, text: string)
    requires ' ' !in tag && '>' !in tag
    ensures ReadElementLine(ElementLine(tag, text)) == Some(Element(tag, Some(text)))
  {
    var line := ElementLine(tag, text);
    var closing := "</" + tag + ">\n";
    assert line == "  <" + tag + ">" + text + closing;
    assert line[..3] == "  <";
    forall m | 3 <= m < 3 + |tag| ensures line[m] != ' ' && line[m] != '>' {
      assert line[m] == tag[m - 3];
    }
    NameEndAt(line, 3, 3 + |tag|);
    assert line[3..3 + |tag|] == tag;
    assert line[|line| - |closing|..] == closing;
    assert line[3 + |tag| + 1..|line| - |closing|] == text;
  }

  /** Element names of the categories hold neither ' ' nor '>'. */
  lemma TagIsName(k: DepKey)
    ensures ' ' !in Tag(k) && '>' !in Tag(k)
  {
    TagInjective(k, k);
    assert forall i :: 0 <= i < |Tag(k)| ==> Tag(k)[i] != ' ';
  }

  /** `'  <%s %s>%s</%s>\n' % (tag, attrs, text, tag)`: an element with attributes on a line of its own. */
  function AttrElementLine(tag: string, attrs: string, text: string): string
  {
    "  <" + tag + " " + attrs + ">" + text + "</" + tag + ">\n"
  }

  /** Reading an element line with attributes gives back its tag and its text. */
  lemma AttrElementLineRoundTrip(tag: string, attrs: string, text: string)
    requires ' ' !in tag && '>' !in tag && '>' !in attrs
    ensures ReadElementLine(AttrElementLine(tag, attrs, text)) == Some(Element(tag, Some(text)))
  {
    var line := AttrElementLine(tag, attrs, text);
    var closing := "</" + tag + ">\n";
    var n := 3 + |tag|;
    assert line == "  <" + tag + " " + attrs + ">" + text + closing;
    assert line[..3] == "  <";
    forall m | 3 <= m < n ensures line[m] != ' ' && line[m] != '>' {
      assert line[m] == tag[m - 3];
    }
    assert line[n] == ' ';
    NameEndStops(line, 3, n);
    assert line[3..n] == tag;
    forall m | n + 1 <= m < n + 1 + |attrs| ensures line[m] != '>' {
      assert line[m] == attrs[m - n - 1];
    }
    TagCloseAt(line, 3, n + 1 + |attrs|);
    assert line[|line| - |closing|..] == closing;
    assert line[n + 1 + |attrs| + 1..|line| - |closing|] == text;
  }

  lemma {:induction false} NameEndStops(line: string, i: nat, j: nat)
    requires i <= j < |line| && (line[j] == ' ' || line[j] == '>')
    requires forall m :: i <= m < j ==> line[m] != ' ' && line[m] != '>'
    ensures NameEnd(line, i) == j
    decreases j - i
  {
    if i < j {
      NameEndStops(line, i + 1, j);
    }
  }

  lemma {:induction false} TagCloseAt(line: string, i: nat, j: nat)
    requires i <= j < |line| && line[j] == '>'
    requires forall m :: i <= m < j ==> line[m] != '>'
    ensures TagClose(line, i) == j
    decreases j - i
  {
    if i < j {
      TagCloseAt(line, i + 1, j);
    }
  }

  /** A line that starts with '<' is not an indented element line. */
  lemma UnindentedLine(line: string)
    requires |line| >= 1 && line[0] == '<'
    ensures ReadElementLine(line) == None
  {
    if |line| >= 3 {
      assert line[..3][0] == '<';
    }
  }

  /** The XML declaration and the package element's own lines read as nothing. */
  lemma FixedLinesRead()
    ensures ReadElementLine(XmlDeclLine) == None
    ensures ReadElementLine(PackageOpenLine) == None
    ensures ReadElementLine(PackageCloseLine) == None
  {
    UnindentedLine(XmlDeclLine);
    UnindentedLine(PackageOpenLine);
    UnindentedLine(PackageCloseLine);
  }

  // ---------------------------------------------------------------------------
  // Reading a whole file back
  // ---------------------------------------------------------------------------

  /** The elements of a file made of lines, one per element line, in order. */
  function Doc(lines: seq<string>): seq<Element>
    decreases |lines|
  {
    if lines == [] then []
    else
      var front := Doc(lines[..|lines| - 1]);
      match ReadElementLine(lines[|lines| - 1])
      case None => front
      case Some(e) => front + [e]
  }

  lemma {:induction false} DocAppend(a: seq<string>, b: seq<string>)
    ensures Doc(a + b) == Doc(a) + Doc(b)
    decreases |b|
  {
    if b == [] {
      assert a + b == a;
    } else {
      var front := b[..|b| - 1];
      DocAppend(a, front);
      assert (a + b)[..|a + b| - 1] == a + front;
    }
  }

  /** Lines that each read as an element give exactly those elements. */
  lemma {:induction false} DocOfElementLines(lines: seq<string>, elems: seq<Element>)
    requires |lines| == |elems|
    requires forall i :: 0 <= i < |lines| ==> ReadElementLine(lines[i]) == Some(elems[i])
    ensures Doc(lines) == elems
    decreases |lines|
  {
    if lines != [] {
      DocOfElementLines(lines[..|lines| - 1], elems[..|elems| - 1]);
    }
  }

  lemma {:induction false} ElementsByTagAppend(a: seq<Element>, b: seq<Element>, tag: string)
    ensures ElementsByTag(a + b, tag) == ElementsByTag(a, tag) + ElementsByTag(b, tag)
    decreases |b|
  {
    if b == [] {
      assert a + b == a;
    } else {
      var front := b[..|b| - 1];
      ElementsByTagAppend(a, front, tag);
      assert (a + b)[..|a + b| - 1] == a + front;
    }
  }

  /** Selecting by tag keeps every element of a list with only that tag, and none of a list without it. */
  lemma {:induction false} ElementsByTagUniform(es: seq<Element>, tag: string)
    requires forall i, j :: 0 <= i < |es| && 0 <= j < |es| ==> es[i].tag == es[j].tag
    ensures es != [] && es[0].tag == tag ==> ElementsByTag(es, tag) == es
    ensures es != [] && es[0].tag != tag ==> ElementsByTag(es, tag) == []
    decreases |es|
  {
    if |es| > 1 {
      ElementsByTagUniform(es[..|es| - 1], tag);
    }
  }

  /** The elements the dependency lines of one category read as. */
  function DepElements(tag: string, renamed: seq<string>): (r: seq<Element>)
    ensures |r| == |renamed|
  {
    seq(|renamed|, i requires 0 <= i < |renamed| => Element(tag, Some(renamed[i])))
  }

  /** The elements of one category's lines are all selected by its tag, and by no other. */
  lemma DepElementsByTag(tag: string, renamed: seq<string>, other: string)
    ensures ElementsByTag(DepElements(tag, renamed), other) == if other == tag then DepElements(tag, renamed) else []
  {
    var es := DepElements(tag, renamed);
    ElementsByTagUniform(es, other);
    if es == [] {
      assert ElementsByTag(es, other) == [];
    }
  }

  lemma KeyLinesRead(k: DepKey, deps: seq<string>, names: map<string, string>)
    ensures Doc(KeyLines(k, deps, names)) == DepElements(Tag(k), Rename(deps, names))
  {
    TagIsName(k);
    var renamed := Rename(deps, names);
    forall i | 0 <= i < |renamed|
      ensures ReadElementLine(KeyLines(k, deps, names)[i]) == Some(DepElements(Tag(k), renamed)[i])
    {
      ElementLineRoundTrip(Tag(k), renamed[i]);
    }
    DocOfElementLines(KeyLines(k, deps, names), DepElements(Tag(k), renamed));
  }

  /** The element names of the categories, in DEPEND_KEYS order. */
  const Tags: seq<string> := seq(|DependKeys|, i requires 0 <= i < |DependKeys| => Tag(DependKeys[i]))

  /** Every category's element name is listed once, at the category's place; "name" is not among them. */
  lemma TagsListed()
    ensures |Tags| == |DependKeys|
    ensures forall i, j :: 0 <= i < j < |Tags| ==> Tags[i] != Tags[j]
    ensures forall k: DepKey :: Tags[KeyIndex(k)] == Tag(k)
    ensures forall i :: 0 <= i < |Tags| ==> Tags[i] != "name"
  {
    forall i, j | 0 <= i < j < |Tags| ensures Tags[i] != Tags[j] {
      DependKeysDistinct();
      TagInjective(DependKeys[i], DependKeys[j]);
    }
    forall i | 0 <= i < |Tags| ensures Tags[i] != "name" {
      HeaderTags("", DependKeys[i]);
    }
  }

  /** The renamed list of every category, in DEPEND_KEYS order. */
  function RenamedLists(rec: Record, names: map<string, string>): (r: seq<seq<string>>)
    requires Complete(rec)
    ensures |r| == |DependKeys|
    ensures forall k: DepKey :: r[KeyIndex(k)] == Rename(rec.deps[k], names)
  {
    seq(|DependKeys|, i requires 0 <= i < |DependKeys| => Rename(rec.deps[DependKeys[i]], names))
  }

  /** The elements of the first n categories' lines, given each category's tag and list. */
  function DepDoc(tags: seq<string>, lists: seq<seq<string>>, n: nat): seq<Element>
    requires n <= |lists| == |tags|
  {
    if n == 0 then []
    else DepDoc(tags, lists, n - 1) + DepElements(tags[n - 1], lists[n - 1])
  }

  /** Blocks that each read as one category's elements read, one after the other, as the categories in turn. */
  lemma {:induction false} ConcatDoc(blocks: seq<seq<string>>, tags: seq<string>, lists: seq<seq<string>>, n: nat)
    requires n <= |blocks| == |lists| == |tags|
    requires forall i {:trigger Doc(blocks[i])} :: 0 <= i < |blocks| ==> Doc(blocks[i]) == DepElements(tags[i], lists[i])
    ensures Doc(Concat(blocks, n)) == DepDoc(tags, lists, n)
    decreases n
  {
    if n > 0 {
      var front := Concat(blocks, n - 1);
      ConcatDoc(blocks, tags, lists, n - 1);
      DocAppend(front, blocks[n - 1]);
      assert Doc(blocks[n - 1]) == DepElements(tags[n - 1], lists[n - 1]);
      assert Doc(Concat(blocks, n)) == Doc(front) + Doc(blocks[n - 1]);
    }
  }

  /** Each category's block reads as that category's renamed list. */
  lemma KeyBlocksRead(rec: Record, names: map<string, string>)
    requires Complete(rec)
    ensures forall i :: 0 <= i < |DependKeys| ==>
      Doc(KeyBlocks(rec, names)[i]) == DepElements(Tags[i], RenamedLists(rec, names)[i])
  {
    forall i | 0 <= i < |DependKeys|
      ensures Doc(KeyBlocks(rec, names)[i]) == DepElements(Tags[i], RenamedLists(rec, names)[i])
    {
      var key := DependKeys[i];
      KeyLinesRead(key, rec.deps[key], names);
      assert Tags[i] == Tag(key);
      assert RenamedLists(rec, names)[i] == Rename(rec.deps[key], names);
    }
  }

  /** The dependency lines of the written file read as the categories' renamed lists in turn. */
  lemma DepLinesDoc(rec: Record, names: map<string, string>)
    requires Complete(rec)
    ensures Doc(Concat(KeyBlocks(rec, names), |DependKeys|)) == DepDoc(Tags, RenamedLists(rec, names), |DependKeys|)
  {
    KeyBlocksRead(rec, names);
    ConcatDoc(KeyBlocks(rec, names), Tags, RenamedLists(rec, names), |DependKeys|);
  }

  /** Appending one category's elements adds to a selection by tag exactly when the tags agree. */
  lemma ByTagSnoc(prior: seq<Element>, tag: string, list: seq<string>, other: string)
    ensures ElementsByTag(prior + DepElements(tag, list), other)
      == ElementsByTag(prior, other) + (if other == tag then DepElements(tag, list) else [])
  {
    ElementsByTagAppend(prior, DepElements(tag, list), other);
    DepElementsByTag(tag, list, other);
  }

  /** A category not yet among the first n has no elements in their lines (tags being distinct). */
  lemma {:induction false} DepDocByTagLater(tags: seq<string>, lists: seq<seq<string>>, n: nat, i: nat)
    requires n <= i < |lists| == |tags|
    requires forall a, b :: 0 <= a < b < |tags| ==> tags[a] != tags[b]
    ensures ElementsByTag(DepDoc(tags, lists, n), tags[i]) == []
    decreases n
  {
    if n > 0 {
      DepDocByTagLater(tags, lists, n - 1, i);
      ByTagSnoc(DepDoc(tags, lists, n - 1), tags[n - 1], lists[n - 1], tags[i]);
      assert tags[n - 1] != tags[i];
    }
  }

  /**
   * Read back, the lines of the first n categories hold, for a category among
   * them, exactly its list (tags being distinct).
   */
  lemma {:induction false} DepDocByTag(tags: seq<string>, lists: seq<seq<string>>, n: nat, i: nat)
    requires i < n <= |lists| == |tags|
    requires forall a, b :: 0 <= a < b < |tags| ==> tags[a] != tags[b]
    ensures ElementsByTag(DepDoc(tags, lists, n), tags[i]) == DepElements(tags[i], lists[i])
    decreases n
  {
    var prior := DepDoc(tags, lists, n - 1);
    ByTagSnoc(prior, tags[n - 1], lists[n - 1], tags[i]);
    if i == n - 1 {
      DepDocByTagLater(tags, lists, n - 1, i);
      assert ElementsByTag(prior, tags[i]) == [];
    } else {
      DepDocByTag(tags, lists, n - 1, i);
      assert tags[n - 1] != tags[i];
    }
  }

  /** No dependency line reads as an element whose tag is not a category's. */
  lemma {:induction false} DepDocOtherTag(tags: seq<string>, lists: seq<seq<string>>, n: nat, tag: string)
    requires n <= |lists| == |tags|
    requires forall i :: 0 <= i < |tags| ==> tags[i] != tag
    ensures ElementsByTag(DepDoc(tags, lists, n), tag) == []
    decreases n
  {
    if n > 0 {
      DepDocOtherTag(tags, lists, n - 1, tag);
      ByTagSnoc(DepDoc(tags, lists, n - 1), tags[n - 1], lists[n - 1], tag);
    }
  }

  /** The elements the fixed opening lines read as. */
  function HeaderElements(newName: string): seq<Element>
  {
    [Element("name", Some(newName)), Element("version", Some("1.0.0")),
     Element("description", Some("Sample package for benchmark")), Element("maintainer", Some("Some User")),
     Element("license", Some("BSD"))]
  }

  lemma OpeningRead()
    ensures Doc([XmlDeclLine, PackageOpenLine]) == []
  {
    FixedLinesRead();
    var lines := [XmlDeclLine, PackageOpenLine];
    assert lines[..1] == [XmlDeclLine];
    assert lines[..1][..0] == [];
    assert Doc(lines[..1]) == [];
  }

  lemma InfoLineRead(newName: string, i: nat)
    requires i < 5
    ensures ReadElementLine(InfoLines(newName)[i]) == Some(HeaderElements(newName)[i])
  {
    if i == 0 {
      ElementLineRoundTrip("name", newName);
    } else if i == 1 {
      InfoElementLineRead(newName, 1, "version", "1.0.0");
    } else if i == 2 {
      InfoElementLineRead(newName, 2, "description", "Sample package for benchmark");
    } else if i == 3 {
      MaintainerLineRead();
    } else {
      InfoElementLineRead(newName, 4, "license", "BSD");
    }
  }

  /** The maintainer line, with its e-mail attribute, reads back as a maintainer element with its text. */
  lemma MaintainerLineRead()
    ensures ReadElementLine(MaintainerLine) == Some(Element("maintainer", Some("Some User")))
  {
    AttrElementLineRoundTrip("maintainer", "email=\"someone@somewhere.there\"", "Some User");
  }

  /** An opening line written as a plain element reads back as the element it stands for. */
  lemma InfoElementLineRead(newName: string, i: nat, tag: string, text: string)
    requires i < 5 && ' ' !in tag && '>' !in tag
    requires InfoLines(newName)[i] == ElementLine(tag, text) && HeaderElements(newName)[i] == Element(tag, Some(text))
    ensures ReadElementLine(InfoLines(newName)[i]) == Some(HeaderElements(newName)[i])
  {
    ElementLineRoundTrip(tag, text);
  }

  lemma InfoRead(newName: string)
    ensures Doc(InfoLines(newName)) == HeaderElements(newName)
  {
    forall i | 0 <= i < 5 ensures ReadElementLine(InfoLines(newName)[i]) == Some(HeaderElements(newName)[i]) {
      InfoLineRead(newName, i);
    }
    DocOfElementLines(InfoLines(newName), HeaderElements(newName));
  }

  /** The opening lines read as the five fixed elements, the first being the new name. */
  lemma HeaderRead(newName: string)
    ensures Doc(HeaderLines(newName)) == HeaderElements(newName)
  {
    OpeningRead();
    InfoRead(newName);
    DocAppend([XmlDeclLine, PackageOpenLine], InfoLines(newName));
  }

  /** The fixed elements are neither a <name> nor a category's element, except the first, which is the name. */
  lemma HeaderTags(newName: string, k: DepKey)
    ensures forall i :: 0 <= i < 5 ==> HeaderElements(newName)[i].tag != Tag(k)
    ensures forall i :: 1 <= i < 5 ==> HeaderElements(newName)[i].tag != "name"
    ensures HeaderElements(newName)[0] == Element("name", Some(newName))
    ensures Tag(k) != "name"
  {
  }

  /** Line 146 read back: the catkin element, when it is written. */
  function CatkinElements(addCatkin: bool): seq<Element>
  {
    if addCatkin then [Element(Tag(BuildtoolDepend), Some("catkin"))] else []
  }

  /** The whole written file reads as the header elements, the catkin element if any, then the dependencies. */
  lemma RenderedDoc(rec: Record, newName: string, names: map<string, string>, addCatkin: bool)
    requires Complete(rec)
    ensures Doc(RenderManifest(rec, newName, names, addCatkin))
      == HeaderElements(newName) + CatkinElements(addCatkin) + DepDoc(Tags, RenamedLists(rec, names), |DependKeys|)
  {
    var h := HeaderLines(newName);
    var c := if addCatkin then [CatkinLine] else [];
    var d := Concat(KeyBlocks(rec, names), |DependKeys|);
    assert RenderManifest(rec, newName, names, addCatkin) == h + c + d + [PackageCloseLine];
    DocAppend(h, c);
    DocAppend(h + c, d);
    DocAppend(h + c + d, [PackageCloseLine]);
    HeaderRead(newName);
    DepLinesDoc(rec, names);
    FixedLinesRead();
    assert Doc([PackageCloseLine]) == [] by {
      assert [PackageCloseLine][..0] == [];
    }
    if addCatkin {
      TagIsName(BuildtoolDepend);
      ElementLineRoundTrip(Tag(BuildtoolDepend), "catkin");
      assert c[..0] == [];
    }
  }

  /** Elements none of which has the tag contribute nothing to a selection by it. */
  lemma {:induction false} ElementsByTagNone(es: seq<Element>, tag: string)
    requires forall i :: 0 <= i < |es| ==> es[i].tag != tag
    ensures ElementsByTag(es, tag) == []
    decreases |es|
  {
    if es != [] {
      ElementsByTagNone(es[..|es| - 1], tag);
    }
  }

  /** The written file has exactly one <name> element, holding the new name. */
  lemma RenderedName(newName: string, catkin: seq<Element>, deps: seq<Element>)
    requires ElementsByTag(catkin, "name") == [] && ElementsByTag(deps, "name") == []
    ensures ElementsByTag(HeaderElements(newName) + catkin + deps, "name") == [Element("name", Some(newName))]
  {
    var h := HeaderElements(newName);
    HeaderTags(newName, Depend);
    assert h == [h[0]] + h[1..];
    ElementsByTagNone(h[1..], "name");
    ElementsByTagAppend([h[0]], h[1..], "name");
    assert ElementsByTag([h[0]], "name") == [h[0]] by {
      assert [h[0]][..0] == [];
    }
    ElementsByTagAppend(h, catkin, "name");
    ElementsByTagAppend(h + catkin, deps, "name");
  }

  /** For a category, the written file holds the catkin element (if any, for build tools), then its list. */
  lemma RenderedCategory(newName: string, addCatkin: bool, lists: seq<seq<string>>, k: DepKey)
    requires |lists| == |DependKeys|
    ensures ElementsByTag(HeaderElements(newName) + CatkinElements(addCatkin) + DepDoc(Tags, lists, |DependKeys|), Tag(k))
      == ElementsByTag(CatkinElements(addCatkin), Tag(k)) + DepElements(Tag(k), lists[KeyIndex(k)])
  {
    var h := HeaderElements(newName);
    var c := CatkinElements(addCatkin);
    HeaderTags(newName, k);
    ElementsByTagNone(h, Tag(k));
    ElementsByTagAppend(h, c, Tag(k));
    ElementsByTagAppend(h + c, DepDoc(Tags, lists, |DependKeys|), Tag(k));
    TagsListed();
    DepDocByTag(Tags, lists, |DependKeys|, KeyIndex(k));
  }

  /** The catkin element is selected by the build-tool tag alone. */
  lemma CatkinByTag(addCatkin: bool, k: DepKey)
    ensures ElementsByTag(CatkinElements(addCatkin), Tag(k))
      == if addCatkin && k == BuildtoolDepend then CatkinElements(addCatkin) else []
    ensures ElementsByTag(CatkinElements(addCatkin), "name") == []
  {
    TagInjective(BuildtoolDepend, k);
    HeaderTags("", k);
    HeaderTags("", BuildtoolDepend);
    if addCatkin {
      assert CatkinElements(addCatkin)[..0] == [];
    }
  }

  /** Elements that all carry text give exactly those texts. */
  lemma TextsOfAll(elems: seq<Element>, texts: seq<string>)
    requires |elems| == |texts|
    requires forall i :: 0 <= i < |elems| ==> elems[i].text == Some(texts[i])
    ensures Texts(elems) == Some(texts)
  {
    var r := Texts(elems);
    assert r.Some?;
    assert r.value == texts;
  }

  /** What reading the rendered file gives for one category: catkin first if added, then the renamed list. */
  function ReadBackList(rec: Record, names: map<string, string>, addCatkin: bool, k: DepKey): seq<string>
    requires Complete(rec)
  {
    (if addCatkin && k == BuildtoolDepend then ["catkin"] else []) + Rename(rec.deps[k], names)
  }

  /** The catkin element as selected by a category's tag. */
  function CatkinFor(addCatkin: bool, k: DepKey): seq<Element>
  {
    if addCatkin && k == BuildtoolDepend then CatkinElements(addCatkin) else []
  }

  /** The elements of one category in the written file. */
  lemma RenderedCategoryElements(rec: Record, newName: string, names: map<string, string>, addCatkin: bool, k: DepKey)
    requires Complete(rec)
    ensures ElementsByTag(Doc(RenderManifest(rec, newName, names, addCatkin)), Tag(k))
      == CatkinFor(addCatkin, k) + DepElements(Tag(k), Rename(rec.deps[k], names))
  {
    RenderedDoc(rec, newName, names, addCatkin);
    RenderedCategory(newName, addCatkin, RenamedLists(rec, names), k);
    CatkinByTag(addCatkin, k);
  }

  /** The texts of one category's elements in the written file. */
  lemma CategoryTexts(addCatkin: bool, k: DepKey, list: seq<string>)
    ensures Texts(CatkinFor(addCatkin, k) + DepElements(Tag(k), list))
      == Some((if addCatkin && k == BuildtoolDepend then ["catkin"] else []) + list)
  {
    var c := CatkinFor(addCatkin, k);
    var elems := c + DepElements(Tag(k), list);
    var texts := (if addCatkin && k == BuildtoolDepend then ["catkin"] else []) + list;
    forall i | 0 <= i < |elems| ensures elems[i].text == Some(texts[i]) {
      if i >= |c| {
        assert elems[i] == DepElements(Tag(k), list)[i - |c|];
      }
    }
    TextsOfAll(elems, texts);
  }

  /**
   * Lines 137-153 against lines 69-75: the file written for a package parses
   * back, from any directory, as the package under its new name whose every
   * category lists, in order, the new names of the dependencies that had one
   * (catkin first among the build-tool dependencies when it is added).
   */
  lemma RenderedManifestReadsBack(rec: Record, newName: string, names: map<string, string>, addCatkin: bool, root: string)
    requires Complete(rec)
    ensures var r := ParseManifest(root, Doc(RenderManifest(rec, newName, names, addCatkin)));
      && r.Ok? && r.value.0 == newName && r.value.1.dir == root
      && forall k: DepKey :: r.value.1.deps[k] == ReadBackList(rec, names, addCatkin, k)
  {
    var doc := Doc(RenderManifest(rec, newName, names, addCatkin));
    var lists := RenamedLists(rec, names);
    RenderedDoc(rec, newName, names, addCatkin);
    CatkinByTag(addCatkin, Depend);
    TagsListed();
    DepDocOtherTag(Tags, lists, |DependKeys|, "name");
    RenderedName(newName, CatkinElements(addCatkin), DepDoc(Tags, lists, |DependKeys|));
    forall k: DepKey ensures Texts(ElementsByTag(doc, Tag(k))) == Some(ReadBackList(rec, names, addCatkin, k)) {
      RenderedCategoryElements(rec, newName, names, addCatkin, k);
      CategoryTexts(addCatkin, k, Rename(rec.deps[k], names));
    }
    assert DepLists(doc, DependKeys).Ok?;
    var r := ParseManifest(root, doc);
    assert r.Ok?;
    ParseManifestLists(root, doc);
    forall k: DepKey ensures r.value.1.deps[k] == ReadBackList(rec, names, addCatkin, k) {
      assert Texts(ElementsByTag(doc, Tag(k))) == Some(r.value.1.deps[k]);
    }
  }

  lemma KeyLinesSnoc(k: DepKey, deps: seq<string>, names: map<string, string>, d: string)
    ensures KeyLines(k, deps + [d], names)
      == KeyLines(k, deps, names) + (if d in names then [DepLine(k, names[d])] else [])
  {
    RenameSnoc(deps, names, d);
  }

  /** Lines 137-143: write the fixed opening lines, one at a time. */
  method WriteHeader(newName: string) returns (lines: seq<string>)
    ensures lines == HeaderLines(newName)
  {
    lines := [XmlDeclLine];
    lines := lines + [PackageOpenLine];
    lines := lines + [ElementLine("name", newName)];
    lines := lines + [ElementLine("version", "1.0.0")];
    lines := lines + [ElementLine("description", "Sample package for benchmark")];
    lines := lines + [MaintainerLine];
    lines := lines + [ElementLine("license", "BSD")];
  }

  /** Lines 137-146: the opening lines, then the catkin line when the option asks for it. */
  method WriteOpening(newName: string, addCatkin: bool) returns (lines: seq<string>)
    ensures lines == OpeningLines(newName, addCatkin)
  {
    lines := WriteHeader(newName);
    if addCatkin {
      lines := lines + [CatkinLine];
    }
  }

  /** Lines 149-151 for one category: a line per dependency that has a new name, in list order. */
  method WriteCategory(lines0: seq<string>, key: DepKey, deps: seq<string>, names: map<string, string>)
    returns (lines: seq<string>)
    ensures lines == lines0 + KeyLines(key, deps, names)
  {
    lines := lines0;
    for j := 0 to |deps|
      invariant lines == lines0 + KeyLines(key, deps[..j], names)
    {
      KeyLinesSnoc(key, deps[..j], names, deps[j]);
      assert deps[..j + 1] == deps[..j] + [deps[j]];
      if deps[j] in names {
        lines := lines + [DepLine(key, names[deps[j]])];
      }
    }
    assert deps[..|deps|] == deps;
  }

  /** Lines 148-151: the dependency lines of every category of DEPEND_KEYS, in turn. */
  method WriteDependencies(lines0: seq<string>, rec: Record, names: map<string, string>)
    returns (lines: seq<string>)
    requires Complete(rec)
    ensures lines == lines0 + Concat(KeyBlocks(rec, names), |DependKeys|)
  {
    ghost var blocks := KeyBlocks(rec, names);
    lines := lines0;
    for n := 0 to |DependKeys|
      invariant lines == lines0 + Concat(blocks, n)
    {
      var key := DependKeys[n];
      lines := WriteCategory(lines, key, rec.deps[key], names);
      assert blocks[n] == KeyLines(key, rec.deps[key], names);
    }
  }

  /**
   * Lines 136-153: write the file of one package line by line: the fixed
   * opening, the optional catkin line, then for each category of DEPEND_KEYS
   * and each dependency in list order a line when the dependency has a new
   * name, then the closing tag.
   */
  method WriteManifest(rec: Record, newName: string, names: map<string, string>, addCatkin: bool)
    returns (lines: seq<string>)
    requires Complete(rec)
    ensures lines == RenderManifest(rec, newName, names, addCatkin)
  {
    lines := WriteOpening(newName, addCatkin);
    lines := WriteDependencies(lines, rec, names);
    lines := lines + [PackageCloseLine];
  }
}
