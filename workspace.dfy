/**
 * The whole script (tools/create_workspace.py): scan the source tree, number
 * the packages, place them in the new workspace and write one anonymised
 * package.xml per package.
 */
module Workspace {
  import opened Wrappers
  import opened Paths
  import opened Manifest
  import opened Scanner
  import opened PackageNames
  import opened TargetPaths
  import opened Render

  /** Lines 28-41: `-d` (copy the directory structure), `-c` (add catkin) and the source directory. */
  datatype Options = Options(copyStructure: bool, addCatkin: bool, source: string)

  /** One package of the new workspace: its directory and the lines of its package.xml. */
  datatype PackageFile = PackageFile(dir: string, lines: seq<string>)

  /** NEW_PACKAGE_NAMES after lines 85-96. */
  function NewNames(reg: Registry): map<string, string>
    requires reg.Valid()
  {
    ValidIsCached(reg);
    NameMapOf(AssignmentOrder(reg.order, reg.records))
  }

  /** NEW_PACKAGE_DIRS after lines 102-124. */
  function NewDirs(reg: Registry, opts: Options): map<string, string>
    requires reg.Valid()
  {
    PackageNamesAreNumbering(reg);
    Targets(reg, opts.source, NewNames(reg), opts.copyStructure, false)
  }

  /** Every package has a new name and a target directory. */
  ghost predicate Placed(reg: Registry, names: map<string, string>, dirs: map<string, string>) {
    forall p :: p in reg.records ==> p in names && p in dirs
  }

  /** The files of lines 133-153, one per package, in the dictionary's order. */
  function Files(reg: Registry, names: map<string, string>, dirs: map<string, string>, addCatkin: bool): (r: seq<PackageFile>)
    requires reg.Valid() && Placed(reg, names, dirs)
    ensures |r| == |reg.order|
  {
    seq(|reg.order|, i requires 0 <= i < |reg.order| =>
      var p := reg.order[i];
      PackageFile(dirs[p], RenderManifest(reg.records[p], names[p], names, addCatkin)))
  }

  /** The new names and directories are given to every package. */
  lemma NewPlacement(reg: Registry, opts: Options)
    requires reg.Valid()
    ensures Placed(reg, NewNames(reg), NewDirs(reg, opts))
  {
    PackageNamesAreNumbering(reg);
    TargetsCover(reg, opts.source, NewNames(reg), opts.copyStructure, false);
  }

  /** The files written for a dictionary of packages. */
  function PackageFiles(reg: Registry, opts: Options): (r: seq<PackageFile>)
    requires reg.Valid()
    ensures |r| == |reg.order|
  {
    NewPlacement(reg, opts);
    Files(reg, NewNames(reg), NewDirs(reg, opts), opts.addCatkin)
  }

  /** The new workspace the script writes for a walk of the source tree, or the parse error that stops it. */
  function NewWorkspace(walk: seq<WalkEntry>, opts: Options): Result<seq<PackageFile>, ParseError>
  {
    match ScanWalk(walk)
    case Err(e) => Err(e)
    case Ok(st) => Ok(PackageFiles(st.registry, opts))
  }

  /** Lines 136-153 for one package. */
  method WritePackage(reg: Registry, names: map<string, string>, dirs: map<string, string>, addCatkin: bool, i: nat)
    returns (f: PackageFile)
    requires reg.Valid() && Placed(reg, names, dirs) && i < |reg.order|
    ensures f == Files(reg, names, dirs, addCatkin)[i]
  {
    var p := reg.order[i];
    var lines := WriteManifest(reg.records[p], names[p], names, addCatkin);
    f := PackageFile(dirs[p], lines);
  }

  /** Lines 133-153: write every package's file, in the dictionary's order. */
  method WriteFiles(reg: Registry, names: map<string, string>, dirs: map<string, string>, addCatkin: bool)
    returns (files: seq<PackageFile>)
    requires reg.Valid() && Placed(reg, names, dirs)
    ensures files == Files(reg, names, dirs, addCatkin)
  {
    files := [];
    for i := 0 to |reg.order|
      invariant files == Files(reg, names, dirs, addCatkin)[..i]
    {
      var f := WritePackage(reg, names, dirs, addCatkin, i);
      PrefixSnoc(Files(reg, names, dirs, addCatkin), i);
      files := files + [f];
    }
    WholeSeq(Files(reg, names, dirs, addCatkin));
  }

  /** The script from the scan to the last file written. */
  method CreateWorkspace(walk: seq<WalkEntry>, opts: Options) returns (r: Result<seq<PackageFile>, ParseError>)
    ensures r == NewWorkspace(walk, opts)
  {
    var scanned := Scan(walk);
    if scanned.Err? {
      return Err(scanned.error);
    }
    var reg := scanned.value.registry;
    var names, pkgNr := AssignPackageNames(reg);
    PackageNamesAreNumbering(reg);
    var dirs, dirNames, dirNr := ComputeTargetPaths(reg, opts.source, names, opts.copyStructure);
    NewPlacement(reg, opts);
    var files := WriteFiles(reg, names, dirs, opts.addCatkin);
    r := Ok(files);
  }

  /** The script stops exactly when the scan does, and otherwise writes one file per package. */
  lemma OneFilePerPackage(walk: seq<WalkEntry>, opts: Options)
    ensures NewWorkspace(walk, opts).Err? <==> ScanWalk(walk).Err?
    ensures NewWorkspace(walk, opts).Ok? ==>
      |NewWorkspace(walk, opts).value| == |ScanWalk(walk).value.registry.records|
  {
    if ScanWalk(walk).Ok? {
      OrderCardinality(ScanWalk(walk).value.registry);
    }
  }

  /** Every new name is a single path component (it contains no '/'). */
  lemma NewNamesAreComponents(reg: Registry)
    requires reg.Valid()
    ensures forall p :: p in NewNames(reg) ==> Slash !in NewNames(reg)[p]
  {
    PackageNamesAreNumbering(reg);
    var names := NewNames(reg);
    forall p | p in names ensures Slash !in names[p] {
      var n :| 1 <= n <= |reg.records| && names[p] == PackageName(n);
      PackageNameIsComponent(n);
    }
  }

  /** Packages with pairwise different directories are written to pairwise different directories. */
  lemma FilesKeepDirsApart(reg: Registry, names: map<string, string>, dirs: map<string, string>, addCatkin: bool)
    requires reg.Valid() && Placed(reg, names, dirs)
    requires forall p, q :: p in dirs && q in dirs && p != q ==> dirs[p] != dirs[q]
    ensures var files := Files(reg, names, dirs, addCatkin);
      forall i, j :: 0 <= i < j < |files| ==> files[i].dir != files[j].dir
  {
    var files := Files(reg, names, dirs, addCatkin);
    forall i, j | 0 <= i < j < |files| ensures files[i].dir != files[j].dir {
      assert files[i].dir == dirs[reg.order[i]];
      assert files[j].dir == dirs[reg.order[j]];
    }
  }

  /** No two packages are written to the same directory. */
  lemma FilesInDistinctDirs(reg: Registry, opts: Options)
    requires reg.Valid()
    ensures var files := PackageFiles(reg, opts);
      forall i, j :: 0 <= i < j < |files| ==> files[i].dir != files[j].dir
  {
    PackageNamesAreNumbering(reg);
    NewNamesAreComponents(reg);
    TargetsDistinct(reg, opts.source, NewNames(reg), opts.copyStructure, false);
    NewPlacement(reg, opts);
    FilesKeepDirsApart(reg, NewNames(reg), NewDirs(reg, opts), opts.addCatkin);
  }

  /** The workspace built from a walk puts no two packages in the same directory. */
  lemma WorkspaceDirsDistinct(walk: seq<WalkEntry>, opts: Options)
    requires NewWorkspace(walk, opts).Ok?
    ensures var files := NewWorkspace(walk, opts).value;
      forall i, j :: 0 <= i < j < |files| ==> files[i].dir != files[j].dir
  {
    FilesInDistinctDirs(ScanWalk(walk).value.registry, opts);
  }

  /**
   * Each written package.xml parses again: it carries the package's new name
   * and, per category, the catkin entry (when -c is given) followed by the
   * new names of the dependencies found in the dictionary.
   */
  lemma FileReadsBack(reg: Registry, opts: Options, i: nat, root: string)
    requires reg.Valid() && i < |reg.order|
    ensures reg.order[i] in NewNames(reg)
    ensures var p := reg.order[i];
      var r := ParseManifest(root, Doc(PackageFiles(reg, opts)[i].lines));
      && r.Ok? && r.value.0 == NewNames(reg)[p] && r.value.1.dir == root
      && forall k: DepKey :: r.value.1.deps[k] == ReadBackList(reg.records[p], NewNames(reg), opts.addCatkin, k)
  {
    var p := reg.order[i];
    PackageNamesAreNumbering(reg);
    NewPlacement(reg, opts);
    RenderedManifestReadsBack(reg.records[p], NewNames(reg)[p], NewNames(reg), opts.addCatkin, root);
  }

  /** A dependency on a package of the dictionary survives, under the new name of that package. */
  lemma DependencyKept(reg: Registry, opts: Options, i: nat, root: string, k: DepKey, d: string)
    requires reg.Valid() && i < |reg.order|
    requires d in reg.records[reg.order[i]].deps[k] && d in reg.records
    ensures d in NewNames(reg)
    ensures var r := ParseManifest(root, Doc(PackageFiles(reg, opts)[i].lines));
      r.Ok? && NewNames(reg)[d] in r.value.1.deps[k]
  {
    var rec := reg.records[reg.order[i]];
    var names := NewNames(reg);
    PackageNamesAreNumbering(reg);
    FileReadsBack(reg, opts, i, root);
    RenameKeeps(rec.deps[k], names);
    var j :| 0 <= j < |rec.deps[k]| && rec.deps[k][j] == d;
  }

  /**
   * Nothing else is written: every dependency read back is catkin (added by -c
   * to the build tool dependencies) or the new name of a package of the
   * dictionary that the original listed in the same category.
   */
  lemma OnlyKnownDependencies(reg: Registry, opts: Options, i: nat, root: string, k: DepKey, x: string)
    requires reg.Valid() && i < |reg.order|
    requires var r := ParseManifest(root, Doc(PackageFiles(reg, opts)[i].lines));
      r.Ok? && x in r.value.1.deps[k]
    ensures (opts.addCatkin && k == BuildtoolDepend && x == "catkin")
      || exists d :: d in reg.records[reg.order[i]].deps[k] && d in reg.records && d in NewNames(reg) && NewNames(reg)[d] == x
  {
    var rec := reg.records[reg.order[i]];
    var names := NewNames(reg);
    PackageNamesAreNumbering(reg);
    FileReadsBack(reg, opts, i, root);
    var catkin: seq<string> := if opts.addCatkin && k == BuildtoolDepend then ["catkin"] else [];
    assert ReadBackList(rec, names, opts.addCatkin, k) == catkin + Rename(rec.deps[k], names);
    if x !in catkin {
      RenameOnly(rec.deps[k], names, x);
      var j :| 0 <= j < |rec.deps[k]| && rec.deps[k][j] in names && names[rec.deps[k][j]] == x;
      assert rec.deps[k][j] in rec.deps[k];
    }
  }
}
