/** Which modules a change touches (`src/indexer/incremental.py`): files of a commit, the
    walk from a changed file up to its module, and what the filter may skip. */
module Incremental {
  import opened Common
  import opened Names

  /** A path relative to the repository root, by its components. */
  datatype Path = Path(parts: seq<Name>)

  datatype Blob = Blob(text: string)

  type Tree = map<Path, Blob>

  datatype NodeKey = NodeKey(kind: Name, fields: seq<Name>)

  const MANIFEST: Name := Name("__manifest__.py")
  const OPENERP: Name := Name("__openerp__.py")
  const SKIPPED: set<Name> := {Name(".git"), Name("node_modules")}

  /** The writer goes over the modules four times: models, views, scripts, stylesheets. */
  const PASSES: nat := 4
  const SHEETS: nat := 3

  function In(dir: Path, file: Name): Path {
    Path(dir.parts + [file])
  }

  predicate IsModuleDir(tree: Tree, dir: Path) {
    In(dir, MANIFEST) in tree || In(dir, OPENERP) in tree
  }

  predicate Under(dir: Path, p: Path) {
    |dir.parts| < |p.parts| && dir.parts == p.parts[..|dir.parts|]
  }

  // ----- From a changed file to its module -----

  /** The closest directory at or above `dir` that holds a manifest; the repository root
      itself is never looked at. */
  function NearestModule(tree: Tree, dir: seq<Name>): Option<Path> {
    if dir == [] then None
    else if IsModuleDir(tree, Path(dir)) then Some(Path(dir))
    else NearestModule(tree, dir[..|dir| - 1])
  }

  function ModuleOf(tree: Tree, file: Path): Option<Path> {
    if file.parts == [] then None else NearestModule(tree, file.parts[..|file.parts| - 1])
  }

  function ModulesOf(tree: Tree, files: seq<Path>): set<Path> {
    set f | f in files && ModuleOf(tree, f).Some? :: ModuleOf(tree, f).value
  }

  /** `compute_changed_module_paths`; the listing of `git diff` is None when git failed. */
  method ComputeChangedModulePaths(tree: Tree, listing: Option<seq<Path>>) returns (modules: set<Path>)
    ensures modules == if listing.Some? then ModulesOf(tree, listing.value) else {}
  {
    modules := {};
    if listing.None? {
      return;
    }
    var files := listing.value;
    for i := 0 to |files|
      invariant modules == ModulesOf(tree, files[..i])
    {
      assert files[..i + 1] == files[..i] + [files[i]];
      var current := if files[i].parts == [] then [] else files[i].parts[..|files[i].parts| - 1];
      ghost var found := ModuleOf(tree, files[i]);
      while current != []
        invariant found == NearestModule(tree, current)
        invariant modules == ModulesOf(tree, files[..i])
        decreases |current|
      {
        if IsModuleDir(tree, Path(current)) {
          modules := modules + {Path(current)};
          break;
        }
        current := current[..|current| - 1];
      }
      assert modules == ModulesOf(tree, files[..i + 1]);
    }
    assert files[..|files|] == files;
  }

  /** The walk finds `dir` exactly when `dir` is a module directory above the start, below
      the root, with no other module directory in between. */
  lemma {:induction false} NearestModuleIff(tree: Tree, start: seq<Name>, dir: Path)
    ensures NearestModule(tree, start) == Some(dir) <==>
              && 0 < |dir.parts| <= |start| && dir.parts == start[..|dir.parts|] && IsModuleDir(tree, dir)
              && forall n :: |dir.parts| < n <= |start| ==> !IsModuleDir(tree, Path(start[..n]))
  {
    if start != [] {
      assert start[..|start|] == start;
      var up := start[..|start| - 1];
      if IsModuleDir(tree, Path(start)) {
        if |dir.parts| == |start| && dir.parts == start[..|dir.parts|] {
          assert dir == Path(start);
        }
      } else {
        NearestModuleIff(tree, up, dir);
        assert forall n :: 0 <= n <= |up| ==> up[..n] == start[..n];
        if |dir.parts| == |start| && dir.parts == start[..|dir.parts|] {
          assert dir == Path(start);
        }
      }
    }
  }

  /** A changed file counts for the module directory it lies under exactly when that is
      not the root and no module directory lies between. */
  lemma ModuleOfIff(tree: Tree, dir: Path, file: Path)
    requires IsModuleDir(tree, dir) && Under(dir, file)
    ensures ModuleOf(tree, file) == Some(dir) <==>
              && dir.parts != []
              && forall e: Path :: Under(dir, e) && Under(e, file) ==> !IsModuleDir(tree, e)
  {
    var start := file.parts[..|file.parts| - 1];
    NearestModuleIff(tree, start, dir);
    assert start[..|dir.parts|] == dir.parts;
    if ModuleOf(tree, file) == Some(dir) {
      forall e: Path | Under(dir, e) && Under(e, file) ensures !IsModuleDir(tree, e) {
        assert start[..|e.parts|] == e.parts;
        assert e == Path(start[..|e.parts|]);
      }
    }
    if dir.parts != [] && forall e: Path :: Under(dir, e) && Under(e, file) ==> !IsModuleDir(tree, e) {
      forall n | |dir.parts| < n <= |start| ensures !IsModuleDir(tree, Path(start[..n])) {
        var e := Path(start[..n]);
        assert Under(dir, e) && Under(e, file);
      }
    }
  }

  // ----- What a module contributes to the graph -----

  /** The manifest file looked for, which manifests are accepted, which directory is kept of
      those with one module name, and the node keys that one file of a module yields in each
      pass of the writer. */
  datatype Scanner = Scanner(manifest: Name, accepts: Blob -> bool, kept: (Tree, Path) -> bool, fileKeys: FileKeys)

  type FileKeys = (Path, Blob, Path, Blob, nat) -> set<NodeKey>

  /** The directories with a manifest that is accepted. */
  predicate Found(s: Scanner, tree: Tree, dir: Path) {
    In(dir, s.manifest) in tree && s.accepts(tree[In(dir, s.manifest)]) && Elems(dir.parts) !! SKIPPED
  }

  /** The module directories the registry lists: of those found with one name it keeps one. */
  predicate Registered(s: Scanner, tree: Tree, dir: Path) {
    Found(s, tree, dir) && s.kept(tree, dir)
  }

  function RegisteredDirs(s: Scanner, tree: Tree): set<Path> {
    set p | p in tree && p.parts != [] && Registered(s, tree, Path(p.parts[..|p.parts| - 1]))
      :: Path(p.parts[..|p.parts| - 1])
  }

  /** The keys one file yields as part of a module. */
  function KeysOfFile(s: Scanner, tree: Tree, dir: Path, p: Path, pass: nat): set<NodeKey> {
    if In(dir, s.manifest) in tree && p in tree && Under(dir, p)
    then s.fileKeys(dir, tree[In(dir, s.manifest)], p, tree[p], pass) else {}
  }

  /** The keys the writer merges for a module in one pass. */
  function ModuleKeys(s: Scanner, tree: Tree, dir: Path, pass: nat): set<NodeKey> {
    set p, k | p in tree && k in KeysOfFile(s, tree, dir, p, pass) :: k
  }

  /** Every node key of every module of the tree is in the graph. */
  ghost predicate Covered(s: Scanner, tree: Tree, graph: set<NodeKey>) {
    forall dir: Path, pass: nat :: Registered(s, tree, dir) && pass < PASSES ==> ModuleKeys(s, tree, dir, pass) <= graph
  }

  /** All node keys of a tree. */
  ghost function KeysOf(s: Scanner, tree: Tree): set<NodeKey> {
    set dir, pass, k | dir in RegisteredDirs(s, tree) && 0 <= pass < PASSES
                       && k in ModuleKeys(s, tree, dir, pass) :: k
  }

  lemma CoveredIffKeys(s: Scanner, tree: Tree, graph: set<NodeKey>)
    ensures Covered(s, tree, graph) <==> KeysOf(s, tree) <= graph
  {
    forall dir: Path ensures dir in RegisteredDirs(s, tree) <==> Registered(s, tree, dir) {
      RegisteredDirsRight(s, tree, dir);
    }
    if KeysOf(s, tree) <= graph {
      forall dir: Path, pass: nat | Registered(s, tree, dir) && pass < PASSES
        ensures ModuleKeys(s, tree, dir, pass) <= graph
      {
        assert ModuleKeys(s, tree, dir, pass) <= KeysOf(s, tree);
      }
    }
  }

  lemma RegisteredDirsRight(s: Scanner, tree: Tree, dir: Path)
    ensures dir in RegisteredDirs(s, tree) <==> Registered(s, tree, dir)
  {
  }

  /** A registered module has its manifest, accepted, outside of `.git` and `node_modules`. */
  lemma RegisteredMeans(s: Scanner, tree: Tree, dir: Path)
    ensures Registered(s, tree, dir) <==>
              && In(dir, s.manifest) in tree && s.accepts(tree[In(dir, s.manifest)]) && s.kept(tree, dir)
              && Name(".git") !in dir.parts && Name("node_modules") !in dir.parts
    ensures IsModuleDir(tree, dir) <==>
              In(dir, Name("__manifest__.py")) in tree || In(dir, Name("__openerp__.py")) in tree
  {
    assert forall x :: x in dir.parts <==> x in Elems(dir.parts);
  }

  // ----- What the filter may skip -----

  /** The module was registered before, and no file below it is new or changed, its manifest
      included. */
  ghost predicate Unchanged(s: Scanner, before: Tree, after: Tree, dir: Path) {
    Registered(s, before, dir) && forall p :: p in after && Under(dir, p) ==> p in before && before[p] == after[p]
  }

  /** Every module the filter skips is unchanged. */
  ghost predicate SkipsUnchanged(s: Scanner, before: Tree, after: Tree, listing: seq<Path>) {
    forall dir :: Registered(s, after, dir) && dir !in ModulesOf(after, listing) ==> Unchanged(s, before, after, dir)
  }

  /** The keys of the modules the listing touches are in the graph. */
  ghost predicate ListedCovered(s: Scanner, after: Tree, listing: seq<Path>, graph: set<NodeKey>) {
    forall dir: Path, pass: nat ::
      Registered(s, after, dir) && dir in ModulesOf(after, listing) && pass < PASSES ==>
        ModuleKeys(s, after, dir, pass) <= graph
  }

  lemma InManifest(s: Scanner, dir: Path)
    ensures Under(dir, In(dir, s.manifest))
  {
    assert In(dir, s.manifest).parts[..|dir.parts|] == dir.parts;
  }

  /** Once the old commit is covered, writing the modules the listing touches covers the new
      one, when the modules skipped are unchanged. */
  lemma FilterComplete(s: Scanner, before: Tree, after: Tree, listing: seq<Path>, graph: set<NodeKey>)
    requires SkipsUnchanged(s, before, after, listing)
    requires Covered(s, before, graph) && ListedCovered(s, after, listing, graph)
    ensures Covered(s, after, graph)
  {
    forall dir: Path, pass: nat | Registered(s, after, dir) && pass < PASSES
      ensures ModuleKeys(s, after, dir, pass) <= graph
    {
      if dir !in ModulesOf(after, listing) {
        assert Unchanged(s, before, after, dir);
        InManifest(s, dir);
        UnchangedKeys(s, before, after, dir, pass);
      }
    }
  }

  lemma UnchangedKeys(s: Scanner, before: Tree, after: Tree, dir: Path, pass: nat)
    requires Unchanged(s, before, after, dir) && In(dir, s.manifest) in after && Under(dir, In(dir, s.manifest))
    ensures ModuleKeys(s, after, dir, pass) <= ModuleKeys(s, before, dir, pass)
  {
    forall p | p in after && Under(dir, p)
      ensures p in before && KeysOfFile(s, after, dir, p, pass) == KeysOfFile(s, before, dir, p, pass)
    {
    }
  }

  /** The filter covers the new commit, whatever keys the files yield. */
  ghost predicate FilterCovers(s: Scanner, before: Tree, after: Tree, listing: seq<Path>) {
    forall keys: FileKeys, graph: set<NodeKey> ::
      Covered(s.(fileKeys := keys), before, graph) && ListedCovered(s.(fileKeys := keys), after, listing, graph) ==>
        Covered(s.(fileKeys := keys), after, graph)
  }

  /** Main result on the filter. It covers the new commit, whatever keys the files yield,
      exactly when every module it skips is unchanged. */
  lemma FilterCoversIff(s: Scanner, before: Tree, after: Tree, listing: seq<Path>)
    ensures FilterCovers(s, before, after, listing) <==> SkipsUnchanged(s, before, after, listing)
  {
    if SkipsUnchanged(s, before, after, listing) {
      forall keys: FileKeys, graph: set<NodeKey> |
        Covered(s.(fileKeys := keys), before, graph) && ListedCovered(s.(fileKeys := keys), after, listing, graph)
        ensures Covered(s.(fileKeys := keys), after, graph)
      {
        var s' := s.(fileKeys := keys);
        SameScanner(s, s', before, after, listing);
        FilterComplete(s', before, after, listing, graph);
      }
    } else {
      var dir :| Registered(s, after, dir) && dir !in ModulesOf(after, listing) && !Unchanged(s, before, after, dir);
      var keys := MissedKeys(s, before, after, listing, dir);
      assert !FilterCovers(s, before, after, listing);
    }
  }

  lemma SameScanner(s: Scanner, s': Scanner, before: Tree, after: Tree, listing: seq<Path>)
    requires s' == s.(fileKeys := s'.fileKeys)
    ensures SkipsUnchanged(s, before, after, listing) <==> SkipsUnchanged(s', before, after, listing)
  {
    forall dir ensures Registered(s, before, dir) <==> Registered(s', before, dir)
               ensures Registered(s, after, dir) <==> Registered(s', after, dir)
               ensures Unchanged(s, before, after, dir) <==> Unchanged(s', before, after, dir) {
    }
  }

  /** When a module skipped did change, a file below it may yield a key that is nowhere else. */
  lemma MissedKeys(s: Scanner, before: Tree, after: Tree, listing: seq<Path>, dir: Path) returns (keys: FileKeys)
    requires Registered(s, after, dir) && dir !in ModulesOf(after, listing) && !Unchanged(s, before, after, dir)
    ensures Covered(s.(fileKeys := keys), before, {}) && ListedCovered(s.(fileKeys := keys), after, listing, {})
    ensures !Covered(s.(fileKeys := keys), after, {})
  {
    var m := In(dir, s.manifest);
    InManifest(s, dir);
    var p := m;
    if Registered(s, before, dir) && before[m] == after[m] {
      p :| p in after && Under(dir, p) && !(p in before && before[p] == after[p]);
    }
    var blob, manifest, key := after[p], after[m], NodeKey(Name("new"), []);
    keys := (d, mb, q, b, pass) => if d == dir && mb == manifest && q == p && b == blob then {key} else {};
    var s' := s.(fileKeys := keys);
    assert key in KeysOfFile(s', after, dir, p, 0);
    assert key in ModuleKeys(s', after, dir, 0);
    assert Registered(s', after, dir) && !(ModuleKeys(s', after, dir, 0) <= {});
  }

  // ----- When the filter skips only what is unchanged -----

  /** Two module directories that give the same module name. */
  predicate SameName(a: Path, b: Path) {
    a.parts != [] && b.parts != [] && a.parts[|a.parts| - 1] == b.parts[|b.parts| - 1]
  }

  /** No other module directory found gives the same name. */
  ghost predicate Unrivalled(s: Scanner, tree: Tree, dir: Path) {
    forall e :: Found(s, tree, e) && SameName(dir, e) ==> e == dir
  }

  /** The finder looks for one of the two manifest files, no registered module sits at the
      root or holds another module directory, and before the change every module found had
      its name alone, for which the registry kept it. */
  ghost predicate Indexable(s: Scanner, before: Tree, after: Tree) {
    && s.manifest in {MANIFEST, OPENERP}
    && (forall dir :: Registered(s, after, dir) ==> dir.parts != [])
    && (forall dir, e :: Registered(s, after, dir) && Under(dir, e) ==> !IsModuleDir(after, e))
    && (forall dir :: Found(s, before, dir) ==> Unrivalled(s, before, dir))
    && (forall dir :: Found(s, before, dir) && Unrivalled(s, before, dir) ==> s.kept(before, dir))
  }

  /** The listing names each file that is new or has new contents. Removed files need not
      be named, so a listing that folds renames into their new path qualifies. */
  ghost predicate ListsChanges(before: Tree, after: Tree, listing: seq<Path>) {
    forall p :: p in after && (p !in before || before[p] != after[p]) ==> p in listing
  }

  lemma IndexableSkipsUnchanged(s: Scanner, before: Tree, after: Tree, listing: seq<Path>)
    requires Indexable(s, before, after) && ListsChanges(before, after, listing)
    ensures SkipsUnchanged(s, before, after, listing)
  {
    forall dir | Registered(s, after, dir) && dir !in ModulesOf(after, listing)
      ensures Unchanged(s, before, after, dir)
    {
      forall p | p in after && Under(dir, p) ensures p in before && before[p] == after[p] {
        ModuleOfIff(after, dir, p);
      }
      InManifest(s, dir);
      assert Found(s, before, dir);
    }
  }

  // ----- Inputs on which a changed module is skipped -----

  /** A scanner that keeps every module found. */
  function KeepAll(): Scanner {
    Scanner(MANIFEST, b => true, (t, d) => true, (d, m, p, b, n) => {})
  }

  /** A module with another one inside: the changed file counts for the inner one alone. */
  lemma NestedChangeSkipped() returns (before: Tree, after: Tree, file: Path, outer: Path)
    ensures ListsChanges(before, after, [file]) && file in after && Under(outer, file)
    ensures Registered(KeepAll(), before, outer) && Registered(KeepAll(), after, outer)
    ensures outer !in ModulesOf(after, [file]) && !FilterCovers(KeepAll(), before, after, [file])
  {
    var a, b := Name("a"), Name("b");
    outer, file := Path([a]), Path([a, b, Name("v.xml")]);
    var inner := Path([a, b]);
    var manifests: Tree := map[In(outer, MANIFEST) := Blob("{}"), In(inner, MANIFEST) := Blob("{}")];
    before, after := manifests[file := Blob("1")], manifests[file := Blob("2")];
    assert NearestModule(after, inner.parts) == Some(inner);
    assert file.parts[..2] == inner.parts && file.parts[..1] == outer.parts;
    assert |inner.parts| != |outer.parts|;
    FilterCoversIff(KeepAll(), before, after, [file]);
  }

  /** A module that had lost its name to another one, now removed: nothing below it changed, so
      it is skipped although it was never written. */
  lemma RivalRemovedSkipped() returns (s: Scanner, before: Tree, after: Tree, removed: Path, left: Path)
    ensures ListsChanges(before, after, [removed]) && removed in before && removed !in after
    ensures Found(s, before, left) && !Registered(s, before, left) && Registered(s, after, left)
    ensures left !in ModulesOf(after, [removed]) && !FilterCovers(s, before, after, [removed])
  {
    var x := Name("x");
    left := Path([Name("a"), x]);
    var rival := Path([Name("b"), x]);
    removed := In(rival, MANIFEST);
    s := Scanner(MANIFEST, b => true, (t, d) => d == rival || removed !in t, (d, m, p, b, n) => {});
    after := map[In(left, MANIFEST) := Blob("{}")];
    before := after[removed := Blob("{'version': '17.0.1.0.0'}")];
    assert left.parts[0] != rival.parts[0];
    assert In(left, MANIFEST).parts[0] != removed.parts[0];
    assert ModuleOf(after, removed) != Some(left) by {
      NearestModuleIff(after, removed.parts[..|removed.parts| - 1], left);
    }
    FilterCoversIff(s, before, after, [removed]);
  }

  /** A module at the repository root: no changed file counts for it. */
  lemma RootChangeSkipped() returns (before: Tree, after: Tree, file: Path, root: Path)
    ensures ListsChanges(before, after, [file]) && file in after && Under(root, file) && root.parts == []
    ensures Registered(KeepAll(), before, root) && Registered(KeepAll(), after, root)
    ensures root !in ModulesOf(after, [file]) && !FilterCovers(KeepAll(), before, after, [file])
  {
    root, file := Path([]), Path([Name("v.xml")]);
    var manifests: Tree := map[In(root, MANIFEST) := Blob("{}")];
    before, after := manifests[file := Blob("1")], manifests[file := Blob("2")];
    FilterCoversIff(KeepAll(), before, after, [file]);
  }
}
