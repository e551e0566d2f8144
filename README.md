# Anonymised catkin workspace: a Dafny model

`tools/create_workspace.py` copies the layout of an existing catkin workspace
into an anonymous one. It works in four phases:

1. **Scan.** It walks the source tree. Every directory holding both
   `package.xml` and `CMakeLists.txt` is registered in `PACKAGE_CACHE`, under
   the name its manifest declares. The record holds the package's directory
   and its dependency lists for the seven categories of `DEPEND_KEYS`. Once a
   directory is registered, the walk never registers anything below it.
2. **Names.** It numbers the packages `package00000001`, `package00000002`,
   and so on. A package gets its number on its turn in dictionary order.
   Right after, each of its dependencies that is a package and has no number
   yet gets the next one.
3. **Directories.** It picks each package's target directory. In flat mode the
   directory sits directly under `src/` and, as line 107 is written, keeps the
   package's original name. In `-d` mode the package goes below one
   `dir%08d` token per piece of its parent directory split at '/', each piece
   numbered once for all packages, under its new name. A package directly
   under the source has the single piece "", so it also gets a token and lands
   one level deeper than its original.
4. **Manifests.** It writes one `package.xml` per package. The file carries
   the new name, fixed metadata, optionally a build-tool dependency on
   `catkin` (`-c`), and the new names of the dependencies that are packages of
   the dictionary, in the order of `DEPEND_KEYS` and of each list.

`TargetPaths` describes both that script and the reading its authors evidently
intended (see "## Findings"), through a flag `corrected`: false is the script
as written, which the methods and `Workspace` compute; true is the intended
reading, used only to state the findings.

Every phase that works step by step is a Dafny `method` with its loops and
invariants. It is proved equal to a specification function, and lemmas prove
the properties of that function. The script keeps its state in module-level
dictionaries and counters, not objects. So the methods carry that state as
parameters and out-parameters (`names`/`pkgNr`, `dirNames`/`dirNr`) rather
than as class fields.

Modules:

- `Wrappers`: `Option` and `Result`.
- `Decimal`: `'%08d' % n`.
- `Paths`: `str.startswith`, `str.split`, `str.join`, `os.path.dirname` and `os.path.relpath`.
- `Manifest`: `DEPEND_KEYS`, a parsed manifest as its sequence of elements, and lines 69-75.
- `Scanner`: lines 58-77.
- `PackageNames`: lines 85-96.
- `TargetPaths`: lines 102-124.
- `Render`: lines 136-153.
- `Workspace`: the whole script from the scan to the last file.

## Model

| member | source | states |
|---|---|---|
| Decimal.Pad8Value | tools/create_workspace.py:89 | `'%08d' % n` is all decimal digits, and its value is n |
| Decimal.Pad8Injective | tools/create_workspace.py:89 | different numbers are formatted as different strings |
| Decimal.Pad8Width | tools/create_workspace.py:89 | below 10^8 the formatted number is exactly eight characters wide |
| Paths.Split | tools/create_workspace.py:114 | `str.split` always returns at least one piece, even for the empty string |
| Paths.JoinSplit | tools/create_workspace.py:114 | joining the pieces of a split gives the string back |
| Paths.SplitJoin | tools/create_workspace.py:121 | splitting a join of pieces without '/' gives the pieces back |
| Paths.Dirname | tools/create_workspace.py:111 | `os.path.dirname` is a prefix of the path; it is "" when the path has no '/', and otherwise it ends just before the last '/' |
| Paths.DirnameAppend | tools/create_workspace.py:111 | the dirname of "q/last" is q |
| Paths.RelPathOfWalkPath | tools/create_workspace.py:111-112 | a directory the walk reaches through components c1..cn is, relative to the source, c1/../cn |
| Paths.ParentOfWalkPath | tools/create_workspace.py:111-112 | the parent of such a directory, relative to the source, is c1/../c(n-1), and "" for the source and its direct children |
| Manifest.KeyIndex | tools/create_workspace.py:48-50 | every dependency category is listed in `DEPEND_KEYS`, at a position this function gives |
| Manifest.DependKeysDistinct | tools/create_workspace.py:48-50 | `DEPEND_KEYS` lists no category twice |
| Manifest.KeysListed | tools/create_workspace.py:48-50 | every category is a member of `DEPEND_KEYS` |
| Manifest.TagInjective | tools/create_workspace.py:48-50 | different categories have different, non-empty tag names |
| Manifest.ElementsByTagMembers | tools/create_workspace.py:74 | `getElementsByTagName(t)` returns exactly the elements of the document tagged t |
| Manifest.EdgesMembers | tools/create_workspace.py:92-93 | the (category, dependency) pairs the naming loop visits are exactly the entries of the record's lists |
| Manifest.Texts | tools/create_workspace.py:74-75 | the texts of a list of elements exist iff every element has text, and they are those texts in order |
| Manifest.DepLists | tools/create_workspace.py:72-75 | on success every category maps to the texts of its elements; on failure it names a category with an element without text |
| Manifest.ParseManifest | tools/create_workspace.py:69-75 | a manifest with no `name` element fails with `NoNameElement`; on success the name is the text of the first `name` element, the record's directory is the walked root, and every category has a list |
| Manifest.ParseManifestLists | tools/create_workspace.py:72-75 | on success each category's list is the texts of the elements with that tag, in document order |
| Manifest.ParseManifestAccepts | tools/create_workspace.py:69-75 | a manifest is read without error iff it has a first `name` element with text and every dependency element has text; then each list has one entry per element, in order |
| Manifest.CollectTexts | tools/create_workspace.py:74-75 | the loop collecting element texts computes `Texts` |
| Manifest.CollectDeps | tools/create_workspace.py:72-75 | the loop over `DEPEND_KEYS` computes `DepLists` |
| Manifest.ReadManifest | tools/create_workspace.py:69-75 | reading one manifest computes `ParseManifest` |
| Scanner.Registry.Put | tools/create_workspace.py:71 | assigning a dictionary key keeps a present key's position and replaces its record; a new key goes last; no other entry changes |
| Scanner.ScanEntry | tools/create_workspace.py:59-77 | a claimed or non-package directory leaves the state unchanged; otherwise the step fails iff the manifest does not parse, and on success it claims `root + '/'` and puts the record, whose directory is root |
| Scanner.ScanWalk | tools/create_workspace.py:58-77 | a successful scan yields a well-formed dictionary: keys in order without repeats, every record complete |
| Scanner.FindClaimed | tools/create_workspace.py:60-64 | the search loop finds a claimed prefix iff one starts the path |
| Scanner.Scan | tools/create_workspace.py:58-77 | the walk loop computes `ScanWalk` |
| Scanner.ScanErrSticky | tools/create_workspace.py:69-70 | once a manifest fails to parse, the rest of the walk changes nothing: the script stops |
| Scanner.ScanClaimed | tools/create_workspace.py:77 | after n entries, `FOUND_DIRS` is the claims of the registering entries among them |
| Scanner.ClaimedGrows | tools/create_workspace.py:77 | `FOUND_DIRS` only grows |
| Scanner.ScanStepClaims | tools/create_workspace.py:58-77 | an entry is registered iff it is a package directory no earlier registration claims |
| Scanner.NestedEntryPruned | tools/create_workspace.py:60-66 | a directory below a package directory found earlier is claimed when the walk reaches it |
| Scanner.NestedEntrySkipped | tools/create_workspace.py:60-66 | such a directory changes nothing, whatever it holds |
| Scanner.OrderGrows | tools/create_workspace.py:71 | the dictionary's key order only grows at the end during the walk |
| Scanner.RecordFromLastRegistration | tools/create_workspace.py:68-77 | every record in the dictionary is the parsed manifest of the last walked directory registering that name |
| PackageNames.PackageNameInjective | tools/create_workspace.py:89 | different numbers give different package names |
| PackageNames.PackageNameIsComponent | tools/create_workspace.py:89 | a package name holds no '/' and is at least 15 characters long |
| PackageNames.NoteDeps | tools/create_workspace.py:93-96 | naming dependencies only appends to the names already given |
| PackageNames.NoteDepsAdds | tools/create_workspace.py:93-96 | the order stays free of repeats; each newly named entry is a package among the dependencies; every dependency that is a package ends up named |
| PackageNames.NotePackage | tools/create_workspace.py:88-96 | one package's turn only appends to the names already given |
| PackageNames.NotePackageNumbers | tools/create_workspace.py:88-96 | an unnamed package gets the next number; the names after it are its dependencies that are packages; all of those are named by the end of its turn |
| PackageNames.NotePackageKeeps | tools/create_workspace.py:88-96 | a turn keeps the names free of repeats, names only packages, and leaves the package named |
| PackageNames.AssignmentOrderCovers | tools/create_workspace.py:87-96 | the assignment order has no repeats, holds only packages, and holds every package of the dictionary |
| PackageNames.AssignmentOrderExtends | tools/create_workspace.py:87 | later turns never renumber: the order after n turns is a prefix of the final one |
| PackageNames.FirstEdge | tools/create_workspace.py:92-93 | the position of the first edge to a dependency in the order the naming loop visits edges, or the number of edges when there is none |
| PackageNames.FirstEdgeSnoc | tools/create_workspace.py:92-93 | one more edge keeps every first edge already present, and is the first edge of its own dependency when that one had none |
| PackageNames.NoteDepsInEdgeOrder | tools/create_workspace.py:92-96 | the dependencies newly named along a list of edges are named in the order of their first edges |
| PackageNames.NotePackageInEdgeOrder | tools/create_workspace.py:88-96 | in one turn, the package's newly named dependencies get increasing numbers in the order of their first edges |
| PackageNames.TurnNamesDependencies | tools/create_workspace.py:87-96 | in the final numbering, a package already named at its turn adds nothing; an unnamed one gets the next number, followed by its not-yet-named dependencies that are packages, in the order of their first edges |
| PackageNames.TurnInFinalOrder | tools/create_workspace.py:88-96 | read in any order that extends it, an unnamed package's turn puts the package next, then only packages among its dependencies, in the order of their first edges, and leaves every such dependency named |
| PackageNames.LoneTurn | tools/create_workspace.py:88-96 | an unnamed package without dependencies only names itself |
| PackageNames.NamedTurn | tools/create_workspace.py:88 | the turn of a package that already has a name changes nothing |
| PackageNames.SingleDepTurn | tools/create_workspace.py:88-96 | an unnamed package whose only dependency is another unnamed package names itself, then that dependency |
| PackageNames.ChainTurns | tools/create_workspace.py:87-96 | with alpha → beta → delta and gamma alone: alpha's turn names alpha and beta; beta's turn adds nothing, because beta is already named; gamma and delta then name themselves |
| PackageNames.ChainOrderOf | tools/create_workspace.py:87-96 | those four turns give the assignment order alpha, beta, gamma, delta |
| PackageNames.FourRecords | tools/create_workspace.py:71 | four complete records under four different names make a well-formed dictionary holding each of them |
| PackageNames.ChainRecords | tools/create_workspace.py:71 | the chain example is a well-formed dictionary with alpha → beta, beta → delta, and gamma and delta without dependencies |
| PackageNames.ChainOrder | tools/create_workspace.py:85-96 | the chain example is a well-formed dictionary, and its assignment order is alpha, beta, gamma, delta |
| PackageNames.ChainNumbering | tools/create_workspace.py:85-96 | in the chain example gamma is package00000003 and delta, which beta depends on, waits until its own turn and is package00000004 |
| PackageNames.NameMapOfHas | tools/create_workspace.py:89 | a name is given exactly to the packages in the assignment order |
| PackageNames.NameMapOfNumbers | tools/create_workspace.py:89 | the i-th package of the assignment order is named with number i + 1 |
| PackageNames.AssignmentOrderPermutes | tools/create_workspace.py:85-96 | the assignment order is a permutation of the dictionary's keys |
| PackageNames.NameMapOfInjective | tools/create_workspace.py:89 | different packages get different names |
| PackageNames.NameMapOfWithin | tools/create_workspace.py:89 | each name's number lies between 1 and the number of packages |
| PackageNames.NameMapOfOnto | tools/create_workspace.py:89 | each number from 1 to the number of packages is used |
| PackageNames.PackageNamesAreNumbering | tools/create_workspace.py:85-96 | `NEW_PACKAGE_NAMES` names exactly the packages, injectively, with the numbers 1 to the number of packages, each used once |
| PackageNames.NoteDepsAppend | tools/create_workspace.py:92-96 | naming along two lists of edges in turn is naming along their concatenation |
| PackageNames.NameCategory | tools/create_workspace.py:93-96 | the loop over one category's list computes `NoteDeps`; the counter is one past the last number |
| PackageNames.NameDependencies | tools/create_workspace.py:92-96 | the loop over `DEPEND_KEYS` computes `NoteDeps` over all the record's edges |
| PackageNames.AssignPackageNames | tools/create_workspace.py:85-96 | the naming loop builds `NEW_PACKAGE_NAMES` from the assignment order, and `PKG_NR` ends one past the number of packages |
| PackageNames.DependsOn | tools/create_workspace.py:72-75 | a record whose only non-empty category is `depend` |
| PackageNames.AlphaTurn | tools/create_workspace.py:88-96 | with alpha (depending on beta and external_lib) and beta, alpha's turn names alpha then beta, and external_lib gets no name |
| PackageNames.AlphaBetaNumbering | tools/create_workspace.py:85-96 | the same example ends with alpha as package00000001 and beta as package00000002, and nothing else named |
| TargetPaths.DirTokenInjective | tools/create_workspace.py:116 | different numbers give different directory tokens |
| TargetPaths.SegmentsAsWritten | tools/create_workspace.py:114 | as written, the split of the parent directory has at least one segment |
| TargetPaths.Segments | tools/create_workspace.py:114 | corrected form: a package at the top has no segments, and a nested one has some |
| TargetPaths.NoteSegments | tools/create_workspace.py:114-117 | numbering a package's segments only appends to the tokens already given |
| TargetPaths.NoteSegmentsAdds | tools/create_workspace.py:114-117 | the token order stays free of repeats, and every segment of the list gets a token |
| TargetPaths.NoteSegmentsOnly | tools/create_workspace.py:114-117 | only segments of the list are added |
| TargetPaths.TokenOrderCovers | tools/create_workspace.py:109-117 | after n packages the token order has no repeats and holds every segment of those packages |
| TargetPaths.TokenOrderOnly | tools/create_workspace.py:109-117 | it holds nothing else |
| TargetPaths.TokenOrderExtends | tools/create_workspace.py:109-117 | tokens given earlier are never renumbered |
| TargetPaths.DirMapOfHas | tools/create_workspace.py:116 | a segment has a token iff it is in the token order |
| TargetPaths.DirMapOfNumbers | tools/create_workspace.py:116 | the i-th segment of the token order gets token number i + 1 |
| TargetPaths.DirMapOfPrefix | tools/create_workspace.py:115-118 | a token read mid-loop is the token the segment has at the end |
| TargetPaths.DirMapOfSize | tools/create_workspace.py:116-117 | `NEW_DIR_NAMES` has one entry per distinct segment |
| TargetPaths.DirMapOfInjective | tools/create_workspace.py:116 | different segments get different tokens, numbered from 1 to the number of segments |
| TargetPaths.Tokens | tools/create_workspace.py:118 | `NEW_SUBDIR` has one token per segment: the segment's token |
| TargetPaths.TokensAgree | tools/create_workspace.py:118 | the tokens of a package's path are the ones the final map gives |
| TargetPaths.MapSegments | tools/create_workspace.py:114-118 | the segment loop numbers new segments in turn, keeps `DIR_NR` one past the last token, and builds `NEW_SUBDIR` from the resulting map |
| TargetPaths.NewToken | tools/create_workspace.py:115-117 | a new segment gets the next token and nothing else changes |
| TargetPaths.TargetMapLookup | tools/create_workspace.py:106-124 | `NEW_PACKAGE_DIRS` holds exactly the packages seen so far, each with its path |
| TargetPaths.TargetsKeys | tools/create_workspace.py:105-124 | exactly the packages of the dictionary get a directory |
| TargetPaths.ListCovered | tools/create_workspace.py:114-118 | every segment of every package has a token in the final `NEW_DIR_NAMES` |
| TargetPaths.TargetAt | tools/create_workspace.py:105-124 | each package's directory is the one its own record calls for, and its segments all have tokens |
| TargetPaths.PackageTarget | tools/create_workspace.py:111-124 | one package's iteration numbers its segments and gives it the path built from the final tokens |
| TargetPaths.FlatTargets | tools/create_workspace.py:105-107 | the flat loop computes `Targets` as written: every package goes to `src/` followed by its original name |
| TargetPaths.NestedTargets | tools/create_workspace.py:108-124 | the `-d` loop, splitting each parent directory at '/' as written, computes `Targets` as written, the final token map as written, and `DIR_NR` one past its size |
| TargetPaths.ComputeTargetPaths | tools/create_workspace.py:102-124 | the directory phase computes `NEW_PACKAGE_DIRS` as written, `NEW_DIR_NAMES` as written (empty in flat mode) and `DIR_NR` |
| TargetPaths.TargetsCover | tools/create_workspace.py:102-124 | as written and corrected: every package, and nothing else, gets a directory; every segment of a package has a token, so line 118 never raises `KeyError` |
| TargetPaths.FinalDirMapIsNumbering | tools/create_workspace.py:103-117 | as written and corrected: `NEW_DIR_NAMES` maps exactly the segments that occur, injectively, onto tokens numbered from 1 to its size |
| TargetPaths.SegmentsOfWalkPath | tools/create_workspace.py:111-114 | corrected form: the segments of a package reached through c1..cn are c1..c(n-1) |
| TargetPaths.StructureAsWrittenNests | tools/create_workspace.py:111-124 | as written, in `-d` mode every package gets one token per piece of its parent directory split at '/', at least one, so the branch at lines 123-124 is never taken |
| TargetPaths.TopLevelAsWritten | tools/create_workspace.py:111-124 | as written, a package directly under the source makes "" a key of `NEW_DIR_NAMES` and lands below the token of "", one level deeper; corrected, it lands directly in `src/` |
| TargetPaths.FlatAsWrittenKeepsName | tools/create_workspace.py:107 | as written, the flat directory ends in the original package name; the corrected one ends in the new name |
| TargetPaths.PathForEndsInName | tools/create_workspace.py:107-124 | a `-d` directory, as written or corrected, and a corrected flat one end in '/' followed by the new name; a flat one as written is `src/` followed by the original name |
| TargetPaths.TargetsDistinct | tools/create_workspace.py:102-124 | different packages get different directories, in both modes, as written and corrected |
| TargetPaths.StructureKeepsDepth | tools/create_workspace.py:109-124 | corrected form: in `-d` mode the path of a package reached through c1..cn is `src`, the tokens of c1..c(n-1), then the new name, so the depth is kept |
| TargetPaths.SubdirOfWalkPath | tools/create_workspace.py:111-113 | `SUBDIR` is "" for a package directly under the source and c1 for one reached through c1/c2 |
| TargetPaths.SegmentsOfSubdir | tools/create_workspace.py:111-114 | a package directly under the source has the segments [""] as written and none corrected; one reached through c1/c2 has the single segment c1 |
| TargetPaths.TwoPackagesSegments | tools/create_workspace.py:111-114 | for one package directly under the source and one below a directory y, the segment lists are [""] and [y] as written, [] and [y] corrected |
| TargetPaths.TwoListsDirMaps | tools/create_workspace.py:114-117 | those segment lists give `{"": dir00000001, y: dir00000002}` as written and `{y: dir00000001}` corrected |
| TargetPaths.TwoPackagesDirMaps | tools/create_workspace.py:109-117 | the final `NEW_DIR_NAMES` of those two packages, as written and corrected |
| TargetPaths.OneSegmentTarget | tools/create_workspace.py:118-122 | a package with the single segment y goes to `src/`, the token of y, then its new name |
| TargetPaths.NoSegmentTarget | tools/create_workspace.py:120-124 | a package without segments goes directly into `src/`, under its new name (reachable only in the corrected form, since the split as written always yields a segment) |
| TargetPaths.TwoPackagesTargets | tools/create_workspace.py:109-124 | as written the two packages go below tokens 1 and 2; corrected, the first goes directly into `src/` and the second below token 1 |
| TargetPaths.TeamSourceTargets | tools/create_workspace.py:109-124 | with `ws/alpha` and `ws/team/beta`, as written `NEW_DIR_NAMES` is `{"": dir00000001, "team": dir00000002}` and alpha and beta go below those tokens; corrected it is `{"team": dir00000001}` and alpha goes directly into `src/` |
| Render.KeyLines | tools/create_workspace.py:149-151 | one line per dependency that has a new name |
| Render.RenameSnoc | tools/create_workspace.py:149-151 | one more dependency adds its new name when it has one, and nothing otherwise |
| Render.RenameKeeps | tools/create_workspace.py:149-151 | every dependency that has a new name is written under it |
| Render.RenameOnly | tools/create_workspace.py:149-151 | everything written is the new name of a listed dependency |
| Render.RenameAll | tools/create_workspace.py:149-151 | when every dependency has a new name, the list is renamed entry by entry |
| Render.ElementLineRoundTrip | tools/create_workspace.py:139 | a written `  <tag>text</tag>` line reads back as that element |
| Render.AttrElementLineRoundTrip | tools/create_workspace.py:142 | the maintainer line reads back as a `maintainer` element with its text |
| Render.MaintainerLineRead | tools/create_workspace.py:142 | the maintainer line, with its e-mail attribute, reads back as a `maintainer` element with the text "Some User" |
| Render.InfoElementLineRead | tools/create_workspace.py:139-143 | an opening line written as a plain element reads back as the element it stands for |
| Render.FixedLinesRead | tools/create_workspace.py:137-153 | the declaration and the opening and closing package lines add no element |
| Render.KeyLinesRead | tools/create_workspace.py:149-151 | a category's lines read back as elements of that tag carrying the new names in list order |
| Render.HeaderRead | tools/create_workspace.py:137-143 | the opening lines read back as name, version, description, maintainer and license |
| Render.CatkinByTag | tools/create_workspace.py:145-146 | the catkin line, when written, is the only extra element, and it is tagged `buildtool_depend` |
| Render.RenderedDoc | tools/create_workspace.py:137-153 | a written manifest reads back as the header, the optional catkin element, and one block per category in `DEPEND_KEYS` order |
| Render.RenderedName | tools/create_workspace.py:139 | the new name is the only `name` element |
| Render.RenderedCategoryElements | tools/create_workspace.py:145-151 | per category, the elements read back are the catkin element (for build tools with `-c`) followed by the renamed dependencies |
| Render.RenderedManifestReadsBack | tools/create_workspace.py:137-153 | a written manifest parses again with the new name; each category's list is `catkin` (build tools, `-c` only) followed by the new names of the dependencies that have one, in order |
| Render.WriteHeader | tools/create_workspace.py:137-143 | the writes of the opening lines produce `HeaderLines` |
| Render.WriteOpening | tools/create_workspace.py:137-146 | adding the catkin line exactly when `-c` is given |
| Render.WriteCategory | tools/create_workspace.py:149-151 | the loop over one list writes one line per dependency with a new name |
| Render.WriteDependencies | tools/create_workspace.py:148-151 | the loop over `DEPEND_KEYS` writes the blocks in order |
| Render.WriteManifest | tools/create_workspace.py:136-153 | writing one file produces `RenderManifest` |
| Workspace.Files | tools/create_workspace.py:133-153 | one file per package |
| Workspace.NewPlacement | tools/create_workspace.py:134-135 | every package has a new name and a directory, so lines 134-135 never raise `KeyError` |
| Workspace.WritePackage | tools/create_workspace.py:134-153 | one iteration writes the package's file into its directory |
| Workspace.WriteFiles | tools/create_workspace.py:133-153 | the writing loop produces every package's file in dictionary order |
| Workspace.CreateWorkspace | tools/create_workspace.py:58-153 | the whole script, with its directory phase as written, computes `NewWorkspace`: the scan's error, or the files of the new workspace |
| Workspace.OneFilePerPackage | tools/create_workspace.py:58-153 | the script stops iff the scan does, and otherwise writes exactly one file per package found |
| Workspace.NewNamesAreComponents | tools/create_workspace.py:89 | no new name contains '/' |
| Workspace.FilesKeepDirsApart | tools/create_workspace.py:133-136 | packages with different directories are written to different directories |
| Workspace.FilesInDistinctDirs | tools/create_workspace.py:102-136 | with the directories the script computes as written, no two packages are written to the same directory |
| Workspace.WorkspaceDirsDistinct | tools/create_workspace.py:58-136 | the workspace the script as written builds from any walk has no two packages in one directory |
| Workspace.FileReadsBack | tools/create_workspace.py:133-153 | each written file parses again with the package's new name and, per category, the optional catkin entry followed by the renamed dependencies |
| Workspace.DependencyKept | tools/create_workspace.py:148-151 | a dependency on a package of the dictionary is kept, under that package's new name, in the same category |
| Workspace.OnlyKnownDependencies | tools/create_workspace.py:145-151 | every dependency read back is `catkin` (build tools, `-c` only) or the new name of a package the original listed in that category |

## Left out

- The directory walk (`os.walk`, line 58) is an input: a sequence of
  entries, each with its path, its file names and its parsed manifest, in the
  order the walk yields them. The model does not check that the paths form a
  tree walked top-down. `NestedEntryPruned` assumes only that an ancestor comes
  before its descendants.
- The XML library (`minidom`) is not modelled. A parsed manifest is its
  sequence of elements (tag, optional first text) in document order, or
  `None` when the library rejects the file. A missing `name` element, or an
  element without text, raises an exception at line 70 or line 75. The model
  turns these into the `Err` results of `ParseManifest`.
- `os.system("rm -rf src")`, `mkdir`, `open` and `f.write` (lines 130-153)
  are not performed. The model computes each package's directory and the
  lines of its `package.xml`. The read-back lemmas use `Render.Doc`, a reader
  for the one-element-per-line files the script writes, in place of the XML
  library.
- Argument parsing (lines 28-41) is replaced by `Workspace.Options`. The
  `print` at line 79 is left out.
- `tools/test_topological_order.py` is not part of this model. It times an
  external ordering routine on the generated workspace.
- `Paths.RelPath` and `Paths.Dirname` model `os.path.relpath` and
  `os.path.dirname` only for the normalised relative paths a walk yields.
  Absolute paths, `..` and symbolic links are not modelled.
- The text the script writes is not XML-escaped, and neither is the model's.
  The read-back lemmas need tags without spaces or '>', which every category
  tag satisfies.
- TargetPaths.Tokens: where a segment has no token, the script raises
  `KeyError` at line 118. The model puts "" there instead, and
  `TargetsCover` proves that this case never occurs.
- Scanner.Registry.Put: a second manifest with a name already in the
  dictionary replaces the record and keeps the first position, as line 71
  does. A design in which the first record wins would keep the old record;
  the model follows the code.
- The findings below are modelled in both forms. `Workspace`, the methods of
  `TargetPaths` and every lemma about the whole script use the script as
  written; the corrected forms (`corrected` = true) serve only to state what
  the authors evidently intended.

## Findings

| source | as written | input that shows it | evidently intended | confidence | as-written member | corrected member |
|---|---|---|---|---|---|---|
| tools/create_workspace.py:107 | flat mode puts a package in `'src/%s' % package_name`, under its ORIGINAL name | any package in flat mode, e.g. `alpha` goes to `src/alpha` | `src/<new name>`, e.g. `src/package00000001`, like line 124 in `-d` mode, so that no original name survives | not executed | TargetPaths.FlatAsWrittenKeepsName | TargetPaths.PathForEndsInName |
| tools/create_workspace.py:114 | `SUBDIR.split('/')` returns `['']` for a package directly under the source, so the package gets a `dir%08d` token for the empty segment and the branch at lines 123-124 is dead | `-d` with packages at `ws/alpha` and `ws/team/beta`: `NEW_DIR_NAMES` becomes `{"": dir00000001, "team": dir00000002}` and alpha goes to `src/dir00000001/` followed by its new name (TargetPaths.TeamSourceTargets) | `src/package00000001`: no segments, the `else` branch at lines 123-124, and depth kept | not executed | TargetPaths.TopLevelAsWritten | TargetPaths.StructureKeepsDepth |
