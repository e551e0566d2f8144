/**
 * The package scan (lines 58-77 of tools/create_workspace.py): walk the source
 * tree, register every directory holding package.xml and CMakeLists.txt under
 * its package name, and never look below a registered directory again.
 */
module Scanner {
  import opened Wrappers
  import opened Paths
  import opened Manifest

  const ManifestFile: string := "package.xml"
  const BuildFile: string := "CMakeLists.txt"

  /**
   * One directory as the walk yields it: its path, the names of the files in
   * it, and its package.xml as the XML library parses it (None when the
   * library rejects the file).
   */
  datatype WalkEntry = WalkEntry(root: string, files: seq<string>, doc: Option<seq<Element>>)

  /**
   * PACKAGE_CACHE: a dictionary from package name to record; order lists its
   * keys in the dictionary's iteration (first insertion) order.
   */
  datatype Registry = Registry(order: seq<string>, records: map<string, Record>)
  {
    ghost predicate Valid() {
      && (forall i, j :: 0 <= i < j < |order| ==> order[i] != order[j])
      && (forall p :: p in records <==> p in order)
      && (forall p :: p in records ==> Complete(records[p]))
    }

    /**
     * `PACKAGE_CACHE[name] = rec`: a present key keeps its position and gets
     * the new value; a new key goes last.
     */
    function Put(name: string, rec: Record): (r: Registry)
      requires Valid() && Complete(rec)
      ensures r.Valid()
      ensures name in r.records && r.records[name] == rec
      ensures forall p :: p != name ==> (p in r.records <==> p in records)
      ensures forall p :: p != name && p in records ==> r.records[p] == records[p]
      ensures name in records ==> r.order == order
      ensures name !in records ==> r.order == order + [name]
    {
      if name in records then Registry(order, records[name := rec])
      else Registry(order + [name], records[name := rec])
    }
  }

  /** The state the scan loop carries: PACKAGE_CACHE and FOUND_DIRS. */
  datatype ScanState = ScanState(registry: Registry, claimed: seq<string>)

  const Initial: ScanState := ScanState(Registry([], map[]), [])

  /** Lines 60-64: some claimed directory prefix starts the path. */
  predicate IsClaimed(claimed: seq<string>, root: string) {
    exists d :: d in claimed && StartsWith(root, d)
  }

  /** Line 68: the directory holds both package.xml and CMakeLists.txt. */
  predicate Qualifies(e: WalkEntry) {
    ManifestFile in e.files && BuildFile in e.files
  }

  /** The entry is registered when it is reached in state st. */
  predicate Registers(st: ScanState, e: WalkEntry) {
    !IsClaimed(st.claimed, e.root) && Qualifies(e)
  }

  /** Lines 69-75 applied to the entry's package.xml. */
  function ReadEntry(e: WalkEntry): Result<(string, Record), ParseError>
  {
    match e.doc
    case None => Err(Malformed(e.root))
    case Some(doc) => ParseManifest(e.root, doc)
  }

  /** One turn of the scan loop (lines 59-77). */
  function ScanEntry(st: ScanState, e: WalkEntry): (r: Result<ScanState, ParseError>)
    requires st.registry.Valid()
    ensures r.Ok? ==> r.value.registry.Valid()
    ensures !Registers(st, e) ==> r == Ok(st)
    ensures Registers(st, e) ==> (r.Err? <==> ReadEntry(e).Err?)
    ensures Registers(st, e) && r.Ok? ==>
      var (name, rec) := ReadEntry(e).value;
      && r.value.claimed == st.claimed + [e.root + [Slash]]
      && rec.dir == e.root
      && r.value.registry == st.registry.Put(name, rec)
  {
    if !Registers(st, e) then Ok(st)
    else
      match ReadEntry(e)
      case Err(err) => Err(err)
      case Ok((name, rec)) => Ok(ScanState(st.registry.Put(name, rec), st.claimed + [e.root + [Slash]]))
  }

  /** The scan over a whole walk: the final state, or the first parse error. */
  function ScanWalk(walk: seq<WalkEntry>): (r: Result<ScanState, ParseError>)
    ensures r.Ok? ==> r.value.registry.Valid()
    decreases |walk|
  {
    if walk == [] then Ok(Initial)
    else
      match ScanWalk(walk[..|walk| - 1])
      case Err(err) => Err(err)
      case Ok(st) => ScanEntry(st, walk[|walk| - 1])
  }

  /** Lines 60-64: look for a claimed prefix of root, stopping at the first. */
  method FindClaimed(claimed: seq<string>, root: string) returns (found: bool)
    ensures found == IsClaimed(claimed, root)
  {
    found := false;
    for i := 0 to |claimed|
      invariant !IsClaimed(claimed[..i], root)
    {
      assert claimed[..i + 1] == claimed[..i] + [claimed[i]];
      if StartsWith(root, claimed[i]) {
        found := true;
        break;
      }
    }
    if !found {
      assert claimed[..|claimed|] == claimed;
    }
  }

  /** Once a prefix of the walk fails to parse, the whole scan fails with that error. */
  lemma {:induction false} ScanErrSticky(walk: seq<WalkEntry>, i: nat)
    requires i <= |walk|
    requires ScanWalk(walk[..i]).Err?
    ensures ScanWalk(walk) == ScanWalk(walk[..i])
    decreases |walk| - i
  {
    if i < |walk| {
      assert walk[..i + 1][..i] == walk[..i];
      ScanErrSticky(walk, i + 1);
    } else {
      assert walk[..i] == walk;
    }
  }

  /** Lines 58-77: the scan loop. */
  method Scan(walk: seq<WalkEntry>) returns (r: Result<ScanState, ParseError>)
    ensures r == ScanWalk(walk)
  {
    var order: seq<string> := [];
    var cache: map<string, Record> := map[];
    var foundDirs: seq<string> := [];
    for i := 0 to |walk|
      invariant ScanWalk(walk[..i]) == Ok(ScanState(Registry(order, cache), foundDirs))
    {
      var e := walk[i];
      assert walk[..i + 1][..i] == walk[..i];
      var found := FindClaimed(foundDirs, e.root);
      if !found && ManifestFile in e.files && BuildFile in e.files {
        var parsed: Result<(string, Record), ParseError>;
        if e.doc.None? {
          parsed := Err(Malformed(e.root));
        } else {
          parsed := ReadManifest(e.root, e.doc.value);
        }
        if parsed.Err? {
          ScanErrSticky(walk, i + 1);
          return Err(parsed.error);
        }
        var (name, rec) := parsed.value;
        if name !in cache {
          order := order + [name];
        }
        cache := cache[name := rec];
        foundDirs := foundDirs + [e.root + [Slash]];
      }
    }
    assert walk[..|walk|] == walk;
    r := Ok(ScanState(Registry(order, cache), foundDirs));
  }

  /**
   * FOUND_DIRS after the first n entries of a walk, computed from the walk
   * alone: a qualifying entry that is not below a claimed directory claims its own.
   */
  function ClaimedBy(walk: seq<WalkEntry>, n: nat): seq<string>
    requires n <= |walk|
    decreases n
  {
    if n == 0 then []
    else
      var claimed := ClaimedBy(walk, n - 1);
      var e := walk[n - 1];
      if Qualifies(e) && !IsClaimed(claimed, e.root) then claimed + [e.root + [Slash]] else claimed
  }

  /** Entry j is registered: it qualifies and no earlier entry claimed a prefix of its path. */
  predicate Claims(walk: seq<WalkEntry>, j: nat)
    requires j < |walk|
  {
    Qualifies(walk[j]) && !IsClaimed(ClaimedBy(walk, j), walk[j].root)
  }

  /** The claims of the first n entries do not depend on the entries after them. */
  lemma {:induction false} ClaimedByPrefix(walk: seq<WalkEntry>, m: nat, n: nat)
    requires n <= m <= |walk|
    ensures ClaimedBy(walk[..m], n) == ClaimedBy(walk, n)
    decreases n
  {
    if n > 0 {
      ClaimedByPrefix(walk, m, n - 1);
      assert walk[..m][n - 1] == walk[n - 1];
    }
  }

  /** A successful scan claims exactly the directories ClaimedBy names. */
  lemma {:induction false} ScanClaimed(walk: seq<WalkEntry>, n: nat)
    requires n <= |walk|
    requires ScanWalk(walk[..n]).Ok?
    ensures ScanWalk(walk[..n]).value.claimed == ClaimedBy(walk, n)
    decreases n
  {
    if n > 0 {
      assert walk[..n][..n - 1] == walk[..n - 1];
      assert walk[..n][n - 1] == walk[n - 1];
      ScanClaimed(walk, n - 1);
    }
  }

  /** Entry j of a successful scan changes the state only if it is registered. */
  lemma ScanStepClaims(walk: seq<WalkEntry>, j: nat)
    requires j < |walk|
    requires ScanWalk(walk[..j + 1]).Ok?
    ensures ScanWalk(walk[..j]).Ok?
    ensures var st := ScanWalk(walk[..j]).value;
      && Registers(st, walk[j]) == Claims(walk, j)
      && ScanWalk(walk[..j + 1]) == ScanEntry(st, walk[j])
  {
    assert walk[..j + 1][..j] == walk[..j];
    assert walk[..j + 1][j] == walk[j];
    ScanClaimed(walk, j);
  }

  lemma {:induction false} ClaimedGrows(walk: seq<WalkEntry>, a: nat, b: nat)
    requires a <= b <= |walk|
    ensures forall c :: c in ClaimedBy(walk, a) ==> c in ClaimedBy(walk, b)
    decreases b - a
  {
    if a < b {
      ClaimedGrows(walk, a, b - 1);
    }
  }

  lemma StartsWithExtend(s: string, prefix: string, more: string)
    requires StartsWith(s, prefix)
    ensures StartsWith(s + more, prefix)
  {
    assert (s + more)[..|prefix|] == s[..|prefix|];
  }

  /**
   * Once entry i of the walk holds package.xml and CMakeLists.txt, every later
   * entry below its directory is pruned, whether i itself was registered or was
   * already below a registered directory.
   */
  lemma NestedEntryPruned(walk: seq<WalkEntry>, i: nat, j: nat)
    requires i < j < |walk|
    requires Qualifies(walk[i])
    requires StartsWith(walk[j].root, walk[i].root + [Slash])
    ensures IsClaimed(ClaimedBy(walk, j), walk[j].root)
    ensures !Claims(walk, j)
  {
    var before := ClaimedBy(walk, i);
    var after := ClaimedBy(walk, i + 1);
    var root := walk[i].root;
    var c: string;
    if IsClaimed(before, root) {
      c :| c in before && StartsWith(root, c);
      StartsWithExtend(root, c, [Slash]);
    } else {
      c := root + [Slash];
    }
    assert c in after;
    ClaimedGrows(walk, i + 1, j);
    StartsWithTrans(walk[j].root, root + [Slash], c);
  }

  /** The scan of one more entry is one more turn of the loop. */
  lemma ScanUnfold(walk: seq<WalkEntry>, j: nat)
    requires j < |walk|
    requires ScanWalk(walk[..j]).Ok?
    ensures ScanWalk(walk[..j + 1]) == ScanEntry(ScanWalk(walk[..j]).value, walk[j])
  {
    assert walk[..j + 1][..j] == walk[..j];
    assert walk[..j + 1][j] == walk[j];
  }

  /** A successful scan is not changed by an entry below an earlier qualifying entry. */
  lemma NestedEntrySkipped(walk: seq<WalkEntry>, i: nat, j: nat)
    requires i < j < |walk|
    requires Qualifies(walk[i])
    requires StartsWith(walk[j].root, walk[i].root + [Slash])
    requires ScanWalk(walk[..j]).Ok?
    ensures ScanWalk(walk[..j + 1]) == ScanWalk(walk[..j])
  {
    NestedEntryPruned(walk, i, j);
    ScanClaimed(walk, j);
    ScanUnfold(walk, j);
  }

  /**
   * The scan only ever extends the dictionary's key order: a key keeps the
   * position of its first registration.
   */
  lemma {:induction false} OrderGrows(walk: seq<WalkEntry>, a: nat, b: nat)
    requires a <= b <= |walk|
    requires ScanWalk(walk[..b]).Ok?
    ensures ScanWalk(walk[..a]).Ok?
    ensures var oa, ob := ScanWalk(walk[..a]).value.registry.order, ScanWalk(walk[..b]).value.registry.order;
      |oa| <= |ob| && ob[..|oa|] == oa
    decreases b - a
  {
    if a < b {
      assert walk[..b][..b - 1] == walk[..b - 1];
      if ScanWalk(walk[..b - 1]).Err? {
        assert false;
      }
      OrderGrows(walk, a, b - 1);
      var oa, om, ob := ScanWalk(walk[..a]).value.registry.order,
        ScanWalk(walk[..b - 1]).value.registry.order, ScanWalk(walk[..b]).value.registry.order;
      assert ob[..|om|] == om;
      assert ob[..|oa|] == om[..|oa|];
    }
  }

  /** Entry i is registered under name p. */
  predicate RegistersName(walk: seq<WalkEntry>, i: nat, p: string)
    requires i < |walk|
  {
    Claims(walk, i) && ReadEntry(walk[i]).Ok? && ReadEntry(walk[i]).value.0 == p
  }

  /** Among the first n entries, entry i is registered under p and no later one is. */
  predicate IsLastRegistration(walk: seq<WalkEntry>, n: nat, i: nat, p: string)
    requires i < n <= |walk|
  {
    RegistersName(walk, i, p) && forall j :: i < j < n ==> !RegistersName(walk, j, p)
  }

  /** A turn that does not register p leaves p's record as it was. */
  lemma StepKeepsOtherRecords(st: ScanState, e: WalkEntry, p: string)
    requires st.registry.Valid()
    requires ScanEntry(st, e).Ok?
    requires p in ScanEntry(st, e).value.registry.records
    requires !(Registers(st, e) && ReadEntry(e).value.0 == p)
    ensures p in st.registry.records
    ensures ScanEntry(st, e).value.registry.records[p] == st.registry.records[p]
  {
  }

  /** The prefix of a sequence up to its length is the whole sequence. */
  lemma WholeSeq<T>(s: seq<T>)
    ensures s[..|s|] == s
  {
  }

  /** RecordFromLastRegistration, for the first n entries of the walk. */
  lemma {:induction false} RecordFromLastRegistrationUpTo(walk: seq<WalkEntry>, n: nat, p: string)
    requires n <= |walk|
    requires ScanWalk(walk[..n]).Ok?
    requires p in ScanWalk(walk[..n]).value.registry.records
    ensures exists i :: (
      && 0 <= i < n && IsLastRegistration(walk, n, i, p) && Qualifies(walk[i])
      && ReadEntry(walk[i]).value.1 == ScanWalk(walk[..n]).value.registry.records[p])
    decreases n
  {
    if n == 0 {
      assert false;
    }
    ScanStepClaims(walk, n - 1);
    var st := ScanWalk(walk[..n - 1]).value;
    var e := walk[n - 1];
    if Registers(st, e) && ReadEntry(e).value.0 == p {
      LastEntryRegisters(walk, n, p);
    } else {
      StepKeepsOtherRecords(st, e, p);
      assert !RegistersName(walk, n - 1, p);
      RecordFromLastRegistrationUpTo(walk, n - 1, p);
      var i :| (
        && 0 <= i < n - 1 && IsLastRegistration(walk, n - 1, i, p) && Qualifies(walk[i])
        && ReadEntry(walk[i]).value.1 == st.registry.records[p]);
      LastRegistrationExtends(walk, n, i, p);
    }
  }

  /** The n-th entry registered under p is the last registration among the first n. */
  lemma LastEntryRegisters(walk: seq<WalkEntry>, n: nat, p: string)
    requires 0 < n <= |walk|
    requires ScanWalk(walk[..n]).Ok?
    requires ScanWalk(walk[..n - 1]).Ok?
    requires Registers(ScanWalk(walk[..n - 1]).value, walk[n - 1]) == Claims(walk, n - 1)
    requires ScanWalk(walk[..n]) == ScanEntry(ScanWalk(walk[..n - 1]).value, walk[n - 1])
    requires Registers(ScanWalk(walk[..n - 1]).value, walk[n - 1])
    requires ReadEntry(walk[n - 1]).Ok? && ReadEntry(walk[n - 1]).value.0 == p
    ensures IsLastRegistration(walk, n, n - 1, p) && Qualifies(walk[n - 1])
    ensures p in ScanWalk(walk[..n]).value.registry.records
    ensures ReadEntry(walk[n - 1]).value.1 == ScanWalk(walk[..n]).value.registry.records[p]
  {
  }

  /** A later entry that does not register p keeps the last registration of p where it was. */
  lemma LastRegistrationExtends(walk: seq<WalkEntry>, n: nat, i: nat, p: string)
    requires i < n - 1 && n <= |walk|
    requires IsLastRegistration(walk, n - 1, i, p)
    requires !RegistersName(walk, n - 1, p)
    ensures IsLastRegistration(walk, n, i, p)
  {
    assert RegistersName(walk, i, p);
    forall j | i < j < n ensures !RegistersName(walk, j, p) {
      if j < n - 1 {
        assert !RegistersName(walk, j, p);
      } else {
        assert j == n - 1;
      }
    }
  }

  /**
   * Every record in the final dictionary was parsed from a directory holding
   * both files that the scan registered under that name, and it is the last
   * such directory: a later one with the same name replaces the record.
   */
  lemma RecordFromLastRegistration(walk: seq<WalkEntry>, p: string)
    requires ScanWalk(walk).Ok?
    requires p in ScanWalk(walk).value.registry.records
    ensures exists i :: (
      && 0 <= i < |walk| && IsLastRegistration(walk, |walk|, i, p) && Qualifies(walk[i])
      && ReadEntry(walk[i]).value.1 == ScanWalk(walk).value.registry.records[p])
  {
    WholeSeq(walk);
    RecordFromLastRegistrationUpTo(walk, |walk|, p);
  }
}
