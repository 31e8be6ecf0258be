/** The indexing run of a repository (`_index_repo` in `src/indexer/pipeline.py`) as a list
    of store actions, run by any number of workers that may stop anywhere. */
module IndexRun {
  import opened Common
  import opened Names
  import opened Incremental

  /** Commit contents and, per repository, how its modules are found and parsed. */
  datatype Env = Env(tree: Name -> Tree, scanner: int -> Scanner)

  /** What one run sees from outside: flags, HEAD, the checked-out files, the answers of
      git about the stored commit, the order the modules are gone through, the repositories
      downstream of the modules written, the stylesheets found in each module, and how many
      of them go into one transaction. */
  datatype Request = Request(repo: int, fullReindex: bool, head: Option<Name>, files: Tree,
                             isAncestor: bool, listing: Option<seq<Path>>, order: seq<Path>, downstream: set<int>,
                             sheets: Path -> seq<Path>, batch: Size)

  type Size = n: nat | n > 0 witness 1

  datatype Action =
    | Write(keys: set<NodeKey>)
    | Advance(repo: int, sha: Name)
    | Reset(repos: set<int>)

  type Heads = map<int, Option<Name>>

  datatype Stores = Stores(graph: set<NodeKey>, heads: Heads)

  // ----- The actions of a run -----

  function PassWrites(s: Scanner, tree: Tree, dirs: seq<Path>, pass: nat): seq<Action>
  {
    if dirs == [] then []
    else PassWrites(s, tree, dirs[..|dirs| - 1], pass) + [Write(ModuleKeys(s, tree, dirs[|dirs| - 1], pass))]
  }

  function Writes(s: Scanner, tree: Tree, dirs: seq<Path>, passes: nat): seq<Action>
  {
    if passes == 0 then [] else Writes(s, tree, dirs, passes - 1) + PassWrites(s, tree, dirs, passes - 1)
  }

  /** The keys of each stylesheet listed for a module. */
  function SheetKeys(s: Scanner, tree: Tree, dir: Path, files: seq<Path>): seq<set<NodeKey>>
  {
    seq(|files|, i requires 0 <= i < |files| => KeysOfFile(s, tree, dir, files[i], SHEETS))
  }

  function AllSheets(s: Scanner, tree: Tree, dirs: seq<Path>, sheets: Path -> seq<Path>): seq<set<NodeKey>>
  {
    if dirs == [] then []
    else
      var last := dirs[|dirs| - 1];
      AllSheets(s, tree, dirs[..|dirs| - 1], sheets) + SheetKeys(s, tree, last, sheets(last))
  }

  function Union(infos: seq<set<NodeKey>>): set<NodeKey> {
    set i, k | 0 <= i < |infos| && k in infos[i] :: k
  }

  /** The stylesheets from `i` on, a batch to a transaction, across modules. */
  function Batches(infos: seq<set<NodeKey>>, size: Size, i: nat): seq<Action>
    decreases |infos| - i
  {
    if i >= |infos| then []
    else [Batch(infos, size, i)] + Batches(infos, size, i + size)
  }

  function Batch(infos: seq<set<NodeKey>>, size: Size, i: nat): Action
    requires i < |infos|
  {
    Write(Union(infos[i..if i + size < |infos| then i + size else |infos|]))
  }

  /** The modules of `order` that are in `chosen`. */
  function Pick(order: seq<Path>, chosen: set<Path>): (r: seq<Path>)
    ensures Elems(r) == Elems(order) * chosen
  {
    if order == [] then []
    else
      SplitLast(order);
      ElemsConcat(Pick(order[..|order| - 1], chosen), [order[|order| - 1]]);
      if order[|order| - 1] in chosen then Pick(order[..|order| - 1], chosen) + [order[|order| - 1]]
      else Pick(order[..|order| - 1], chosen)
  }

  /** The stored commit a run may diff against. */
  function DiffBase(req: Request, stored: Option<Name>): Option<Name> {
    if req.fullReindex then None
    else if stored.Some? && req.head.Some? && !req.isAncestor then None
    else stored
  }

  function Plan(env: Env, req: Request, stored: Option<Name>): seq<Action> {
    var s := env.scanner(req.repo);
    var registered := RegisteredDirs(s, req.files);
    var base := DiffBase(req, stored);
    if !req.fullReindex && req.head.Some? && stored == req.head then []
    else if base.Some? && req.head.Some? then
      var chosen := registered * if req.listing.Some? then ModulesOf(req.files, req.listing.value) else {};
      if chosen == {} then [Advance(req.repo, req.head.value)]
      else WriteAll(s, req, chosen) + [Advance(req.repo, req.head.value), Reset(req.downstream - {req.repo})]
    else
      WriteAll(s, req, registered) + if req.head.Some? then [Advance(req.repo, req.head.value)] else []
  }

  function WriteAll(s: Scanner, req: Request, chosen: set<Path>): seq<Action> {
    var tree, dirs := req.files, Pick(req.order, chosen);
    Writes(s, tree, dirs, SHEETS) + Batches(AllSheets(s, tree, dirs, req.sheets), req.batch, 0)
  }

  function Perform(st: Stores, a: Action): Stores {
    match a
    case Write(keys) => st.(graph := st.graph + keys)
    case Advance(repo, sha) => if repo in st.heads then st.(heads := st.heads[repo := Some(sha)]) else st
    case Reset(repos) => st.(heads := map r | r in st.heads :: if r in repos then None else st.heads[r])
  }

  function PerformAll(st: Stores, actions: seq<Action>): Stores {
    if actions == [] then st
    else Perform(PerformAll(st, actions[..|actions| - 1]), actions[|actions| - 1])
  }

  function StoredHead(heads: Heads, repo: int): Option<Name> {
    if repo in heads then heads[repo] else None
  }

  // ----- The run itself -----

  lemma {:induction false} PerformConcat(st: Stores, a: seq<Action>, b: seq<Action>)
    ensures PerformAll(st, a + b) == PerformAll(PerformAll(st, a), b)
  {
    if b == [] {
      assert a + b == a;
    } else {
      assert (a + b)[..|a + b| - 1] == a + b[..|b| - 1];
      PerformConcat(st, a, b[..|b| - 1]);
    }
  }

  lemma PerformTail(st: Stores, written: seq<Action>, a: Action, b: Action)
    ensures PerformAll(st, written + [a]) == Perform(PerformAll(st, written), a)
    ensures PerformAll(st, written + [a, b]) == Perform(Perform(PerformAll(st, written), a), b)
  {
    assert (written + [a])[..|written|] == written;
    assert (written + [a, b])[..|written| + 1] == written + [a];
  }

  lemma PerformFirst(st: Stores, a: Action, rest: seq<Action>)
    ensures PerformAll(st, [a] + rest) == PerformAll(Perform(st, a), rest)
  {
    PerformConcat(st, [a], rest);
    assert [a][..0] == [];
    assert PerformAll(st, [a]) == Perform(st, a);
  }

  lemma PickedChosen(order: seq<Path>, chosen: set<Path>)
    ensures forall d :: d in Pick(order, chosen) ==> d in chosen
  {
    forall d | d in Pick(order, chosen) ensures d in chosen {
      assert d in Elems(Pick(order, chosen));
    }
  }

  class IndexStores {
    var graph: set<NodeKey>
    var heads: Heads

    ghost function Contents(): Stores reads this {
      Stores(graph, heads)
    }

    constructor (graph: set<NodeKey>, heads: Heads)
      ensures this.graph == graph && this.heads == heads
    {
      this.graph, this.heads := graph, heads;
    }

    /** `update_repo_head_sha`: a repository without a row is an error and changes nothing. */
    method RecordHead(repo: int, sha: Name) returns (ok: bool)
      modifies this
      ensures ok <==> repo in old(heads)
      ensures Contents() == Perform(old(Contents()), Advance(repo, sha))
    {
      if repo in heads {
        heads := heads[repo := Some(sha)];
      }
      return repo in heads;
    }

    /** The four writer calls: three with a transaction for each module chosen, then the
        stylesheets of all of them in batches. */
    method WriteModules(s: Scanner, req: Request, chosen: set<Path>)
      modifies this
      ensures heads == old(heads)
      ensures Contents() == PerformAll(old(Contents()), WriteAll(s, req, chosen))
    {
      var tree, dirs := req.files, Pick(req.order, chosen);
      WriteResults(s, tree, dirs);
      var infos := CollectSheets(s, tree, dirs, req.sheets);
      PerformConcat(old(Contents()), Writes(s, tree, dirs, SHEETS), Batches(infos, req.batch, 0));
      WriteStylesheets(infos, req.batch);
    }

    method CollectSheets(s: Scanner, tree: Tree, dirs: seq<Path>, sheets: Path -> seq<Path>)
      returns (infos: seq<set<NodeKey>>)
        ensures infos == AllSheets(s, tree, dirs, sheets)
    {
      infos := [];
      for i := 0 to |dirs|
        invariant infos == AllSheets(s, tree, dirs[..i], sheets)
      {
        assert dirs[..i + 1][..i] == dirs[..i];
        infos := infos + SheetKeys(s, tree, dirs[i], sheets(dirs[i]));
      }
      assert dirs[..|dirs|] == dirs;
    }

    /** `write_stylesheets`. */
    method WriteStylesheets(infos: seq<set<NodeKey>>, size: Size)
      modifies this
      ensures heads == old(heads)
      ensures Contents() == PerformAll(old(Contents()), Batches(infos, size, 0))
    {
      var i := 0;
      while i < |infos|
        invariant heads == old(heads)
        invariant PerformAll(old(Contents()), Batches(infos, size, 0)) ==
                  PerformAll(Contents(), Batches(infos, size, i))
        decreases |infos| - i
      {
        PerformFirst(Contents(), Batch(infos, size, i), Batches(infos, size, i + size));
        graph := graph + Union(infos[i..if i + size < |infos| then i + size else |infos|]);
        i := i + size;
      }
    }

    method WriteResults(s: Scanner, tree: Tree, dirs: seq<Path>)
        modifies this
      ensures heads == old(heads)
      ensures Contents() == PerformAll(old(Contents()), Writes(s, tree, dirs, SHEETS))
    {
      for pass := 0 to SHEETS
        invariant heads == old(heads)
        invariant Contents() == PerformAll(old(Contents()), Writes(s, tree, dirs, pass))
      {
        WritePass(s, tree, dirs, pass);
        PerformConcat(old(Contents()), Writes(s, tree, dirs, pass), PassWrites(s, tree, dirs, pass));
      }
    }

    method WritePass(s: Scanner, tree: Tree, dirs: seq<Path>, pass: nat)
        modifies this
      ensures heads == old(heads)
      ensures Contents() == PerformAll(old(Contents()), PassWrites(s, tree, dirs, pass))
    {
      for i := 0 to |dirs|
        invariant heads == old(heads)
        invariant Contents() == PerformAll(old(Contents()), PassWrites(s, tree, dirs[..i], pass))
      {
        assert dirs[..i + 1][..i] == dirs[..i];
        graph := graph + ModuleKeys(s, tree, dirs[i], pass);
      }
      assert dirs[..|dirs|] == dirs;
    }

    /** Fails only when the repository has no row to record the new head in. */
    method IndexRepo(env: Env, req: Request) returns (ok: bool)
      modifies this
      ensures ok <==> req.repo in old(heads) || req.head.None?
      ensures Contents() == PerformAll(old(Contents()), Plan(env, req, StoredHead(old(heads), req.repo)))
    {
      var s := env.scanner(req.repo);
      var lastHead := None;
      if !req.fullReindex {
        lastHead := StoredHead(heads, req.repo);
        if req.head.Some? && lastHead == req.head {
          return true;
        }
        if lastHead.Some? && req.head.Some? && !req.isAncestor {
          lastHead := None;
        }
      }
      var chosen := RegisteredDirs(s, req.files);
      if lastHead.Some? && req.head.Some? {
        var changed := ComputeChangedModulePaths(req.files, req.listing);
        chosen := chosen * changed;
        if chosen == {} {
          ghost var a := Advance(req.repo, req.head.value);
          assert [a][..0] == [];
          ok := RecordHead(req.repo, req.head.value);
          return;
        }
      }
      ghost var written := WriteAll(s, req, chosen);
      WriteModules(s, req, chosen);
      assert Contents() == PerformAll(old(Contents()), written);
      assert written + [] == written;
      if req.head.Some? {
        PerformTail(old(Contents()), written, Advance(req.repo, req.head.value), Reset(req.downstream - {req.repo}));
        ok := RecordHead(req.repo, req.head.value);
        if ok && lastHead.Some? {
          heads := map r | r in heads :: if r in req.downstream - {req.repo} then None else heads[r];
        }
      } else {
        ok := true;
      }
    }
  }

  // ----- What holds between any two steps -----

  /** A stored head stands for a commit all of whose node keys are in the graph. */
  ghost predicate HeadsCovered(env: Env, st: Stores) {
    forall r :: r in st.heads && st.heads[r].Some? ==> Covered(env.scanner(r), env.tree(st.heads[r].value), st.graph)
  }

  /** The actions a worker has left will have written a commit before they record it. */
  ghost predicate Safe(env: Env, graph: set<NodeKey>, actions: seq<Action>)
    decreases |actions|
  {
    actions != [] ==>
      match actions[0]
      case Write(keys) => Safe(env, graph + keys, actions[1..])
      case Advance(repo, sha) => Covered(env.scanner(repo), env.tree(sha), graph) && Safe(env, graph, actions[1..])
      case Reset(_) => Safe(env, graph, actions[1..])
  }

  lemma {:induction false} SafeMonotone(env: Env, small: set<NodeKey>, large: set<NodeKey>, actions: seq<Action>)
    requires small <= large && Safe(env, small, actions)
    ensures Safe(env, large, actions)
    decreases |actions|
  {
    if actions != [] {
      match actions[0]
      case Write(keys) => SafeMonotone(env, small + keys, large + keys, actions[1..]);
      case Advance(repo, sha) => SafeMonotone(env, small, large, actions[1..]);
      case Reset(_) => SafeMonotone(env, small, large, actions[1..]);
    }
  }

  /** The keys a list of actions writes. */
  function Written(actions: seq<Action>): set<NodeKey> {
    if actions == [] then {}
    else Written(actions[..|actions| - 1]) + if actions[|actions| - 1].Write? then actions[|actions| - 1].keys else {}
  }

  lemma {:induction false} WrittenConcat(a: seq<Action>, b: seq<Action>)
    ensures Written(a + b) == Written(a) + Written(b)
  {
    if b == [] {
      assert a + b == a;
    } else {
      assert (a + b)[..|a + b| - 1] == a + b[..|b| - 1];
      WrittenConcat(a, b[..|b| - 1]);
    }
  }

  /** Writes first, then a tail that is safe once they are done. */
  lemma {:induction false} SafeAfterWrites(env: Env, graph: set<NodeKey>, writes: seq<Action>, rest: seq<Action>)
    requires forall a :: a in writes ==> a.Write?
    requires Safe(env, graph + Written(writes), rest)
    ensures Safe(env, graph, writes + rest)
    decreases |writes|
  {
    if writes == [] {
      assert writes + rest == rest;
      assert graph + Written(writes) == graph;
    } else {
      var head, tail := writes[0], writes[1..];
      assert writes == [head] + tail;
      WrittenConcat([head], tail);
      assert Written([head]) == head.keys by { assert [head][..0] == []; }
      assert graph + head.keys + Written(tail) == graph + Written(writes);
      SafeAfterWrites(env, graph + head.keys, tail, rest);
      assert (writes + rest)[1..] == tail + rest;
    }
  }

  lemma {:induction false} WritesAreWrites(s: Scanner, tree: Tree, dirs: seq<Path>, passes: nat)
    ensures forall a :: a in Writes(s, tree, dirs, passes) ==> a.Write?
    ensures forall d, p: nat :: d in dirs && p < passes ==>
              ModuleKeys(s, tree, d, p) <= Written(Writes(s, tree, dirs, passes))
  {
    if passes > 0 {
      WritesAreWrites(s, tree, dirs, passes - 1);
      PassIsWrites(s, tree, dirs, passes - 1);
      WrittenConcat(Writes(s, tree, dirs, passes - 1), PassWrites(s, tree, dirs, passes - 1));
    }
  }

  lemma {:induction false} PassIsWrites(s: Scanner, tree: Tree, dirs: seq<Path>, pass: nat)
    ensures forall a :: a in PassWrites(s, tree, dirs, pass) ==> a.Write?
    ensures forall d :: d in dirs ==> ModuleKeys(s, tree, d, pass) <= Written(PassWrites(s, tree, dirs, pass))
  {
    if dirs != [] {
      SplitLast(dirs);
      PassIsWrites(s, tree, dirs[..|dirs| - 1], pass);
      var ws := PassWrites(s, tree, dirs, pass);
      assert ws[..|ws| - 1] == PassWrites(s, tree, dirs[..|dirs| - 1], pass);
    }
  }

  /** Every file that yields stylesheet keys is among the stylesheets of its module. */
  ghost predicate SheetsListed(s: Scanner, req: Request) {
    forall d, p :: d in RegisteredDirs(s, req.files) && p !in req.sheets(d) ==>
      KeysOfFile(s, req.files, d, p, SHEETS) == {}
  }

  /** What a run may rely on: the files are those of HEAD, the order lists every module and
      the stylesheets are all listed; and, only when it filters, the diff was answered and the
      modules it skips are unchanged. */
  ghost predicate Faithful(env: Env, req: Request, stored: Option<Name>) {
    var s := env.scanner(req.repo);
    && RegisteredDirs(s, req.files) <= Elems(req.order)
    && SheetsListed(s, req)
    && (req.head.Some? ==>
          && req.files == env.tree(req.head.value)
          && (DiffBase(req, stored).Some? && stored != req.head ==>
                req.listing.Some? && SkipsUnchanged(s, env.tree(stored.value), req.files, req.listing.value)))
  }

  /** The actions planned from a covered stored head are safe. */
  lemma PlanSafe(env: Env, req: Request, stored: Option<Name>, graph: set<NodeKey>)
    requires Faithful(env, req, stored)
    requires stored.Some? ==> Covered(env.scanner(req.repo), env.tree(stored.value), graph)
    ensures Safe(env, graph, Plan(env, req, stored))
  {
    var s := env.scanner(req.repo);
    var registered := RegisteredDirs(s, req.files);
    var base := DiffBase(req, stored);
    if !req.fullReindex && req.head.Some? && stored == req.head {
    } else if base.Some? && req.head.Some? {
      var chosen := registered * ModulesOf(req.files, req.listing.value);
      var ws := WriteAll(s, req, chosen);
      AllWritten(s, req, chosen);
      ChosenCovers(s, env.tree(stored.value), req.files, req.listing.value, chosen, graph, graph + Written(ws));
      var tail := [Advance(req.repo, req.head.value), Reset(req.downstream - {req.repo})];
      assert tail[1..][1..] == [];
      if chosen == {} {
        NothingWritten(s, req);
        assert graph + Written(ws) == graph;
        assert [Advance(req.repo, req.head.value)][1..] == [];
      } else {
        SafeAfterWrites(env, graph, ws, tail);
      }
    } else {
      var ws := WriteAll(s, req, registered);
      AllWritten(s, req, registered);
      if req.head.Some? {
        forall dir: Path, pass: nat | Registered(s, req.files, dir) && pass < PASSES
          ensures ModuleKeys(s, req.files, dir, pass) <= graph + Written(ws)
        {
          RegisteredDirsRight(s, req.files, dir);
        }
        assert [Advance(req.repo, req.head.value)][1..] == [];
        SafeAfterWrites(env, graph, ws, [Advance(req.repo, req.head.value)]);
      } else {
        SafeAfterWrites(env, graph, ws, []);
      }
    }
  }

  lemma AllWritten(s: Scanner, req: Request, chosen: set<Path>)
    requires chosen <= RegisteredDirs(s, req.files) <= Elems(req.order) && SheetsListed(s, req)
    ensures forall a :: a in WriteAll(s, req, chosen) ==> a.Write?
    ensures forall d, p: nat :: d in chosen && p < PASSES ==>
              ModuleKeys(s, req.files, d, p) <= Written(WriteAll(s, req, chosen))
  {
    var tree, dirs := req.files, Pick(req.order, chosen);
    PickedChosen(req.order, chosen);
    var infos := AllSheets(s, tree, dirs, req.sheets);
    WritesAreWrites(s, tree, dirs, SHEETS);
    BatchesWrite(infos, req.batch, 0);
    WrittenConcat(Writes(s, tree, dirs, SHEETS), Batches(infos, req.batch, 0));
    forall d, p: nat | d in chosen && p < PASSES
      ensures ModuleKeys(s, tree, d, p) <= Written(WriteAll(s, req, chosen))
    {
      assert d in Elems(dirs);
      if p == SHEETS {
        SheetsCover(s, tree, dirs, req.sheets, d);
      }
    }
  }

  lemma {:induction false} BatchesWrite(infos: seq<set<NodeKey>>, size: Size, i: nat)
    ensures forall a :: a in Batches(infos, size, i) ==> a.Write?
    ensures forall j :: i <= j < |infos| ==> infos[j] <= Written(Batches(infos, size, i))
    decreases |infos| - i
  {
    if i < |infos| {
      var first, rest := Batch(infos, size, i), Batches(infos, size, i + size);
      BatchesWrite(infos, size, i + size);
      WrittenConcat([first], rest);
      assert Written([first]) == first.keys by { assert [first][..0] == []; }
      var n := if i + size < |infos| then i + size else |infos|;
      forall j | i <= j < n ensures infos[j] <= first.keys {
        assert infos[i..n][j - i] == infos[j];
      }
    }
  }

  /** The keys the stylesheets of a module yield are all in the list. */
  lemma SheetsCover(s: Scanner, tree: Tree, dirs: seq<Path>, sheets: Path -> seq<Path>, d: Path)
    requires d in dirs
    requires forall p :: p !in sheets(d) ==> KeysOfFile(s, tree, d, p, SHEETS) == {}
    ensures forall k :: k in ModuleKeys(s, tree, d, SHEETS) ==>
              exists j :: 0 <= j < |AllSheets(s, tree, dirs, sheets)| && k in AllSheets(s, tree, dirs, sheets)[j]
  {
    var infos := AllSheets(s, tree, dirs, sheets);
    var at := SheetsAt(s, tree, dirs, sheets, d);
    forall k | k in ModuleKeys(s, tree, d, SHEETS) ensures exists j :: 0 <= j < |infos| && k in infos[j] {
      var p :| p in tree && k in KeysOfFile(s, tree, d, p, SHEETS);
      var i :| 0 <= i < |sheets(d)| && sheets(d)[i] == p;
      assert k in SheetKeys(s, tree, d, sheets(d))[i];
      assert k in infos[at + i];
    }
  }

  lemma {:induction false} SheetsAt(s: Scanner, tree: Tree, dirs: seq<Path>, sheets: Path -> seq<Path>, d: Path)
      returns (at: nat)
    requires d in dirs
    ensures var own, infos := SheetKeys(s, tree, d, sheets(d)), AllSheets(s, tree, dirs, sheets);
            at + |own| <= |infos| && forall i :: 0 <= i < |own| ==> infos[at + i] == own[i]
  {
    var front, last := dirs[..|dirs| - 1], dirs[|dirs| - 1];
    if d == last {
      at := |AllSheets(s, tree, front, sheets)|;
    } else {
      at := SheetsAt(s, tree, front, sheets, d);
    }
  }

  lemma NothingWritten(s: Scanner, req: Request)
    ensures Written(WriteAll(s, req, {})) == {}
  {
    PickNone(req.order);
    NoWrites(s, req.files, SHEETS);
  }

  lemma {:induction false} PickNone(order: seq<Path>)
    ensures Pick(order, {}) == []
  {
    if order != [] { PickNone(order[..|order| - 1]); }
  }

  lemma {:induction false} NoWrites(s: Scanner, tree: Tree, passes: nat)
    ensures Writes(s, tree, [], passes) == []
  {
    if passes > 0 { NoWrites(s, tree, passes - 1); }
  }

  lemma ChosenCovers(s: Scanner, before: Tree, after: Tree, listing: seq<Path>, chosen: set<Path>,
                     covered: set<NodeKey>, graph: set<NodeKey>)
    requires SkipsUnchanged(s, before, after, listing)
    requires chosen == RegisteredDirs(s, after) * ModulesOf(after, listing)
    requires Covered(s, before, covered) && covered <= graph
    requires forall d, p: nat :: d in chosen && p < PASSES ==>
               ModuleKeys(s, after, d, p) <= graph
    ensures Covered(s, after, graph)
  {
    forall dir: Path, pass: nat | Registered(s, after, dir) && dir in ModulesOf(after, listing) && pass < PASSES
      ensures ModuleKeys(s, after, dir, pass) <= graph
    {
      RegisteredDirsRight(s, after, dir);
    }
    FilterComplete(s, before, after, listing, graph);
  }

  // ----- What one run leaves -----

  /** The node keys of some modules of a tree. */
  ghost function KeysOfDirs(s: Scanner, tree: Tree, dirs: set<Path>): set<NodeKey> {
    set dir, pass, k | dir in dirs && 0 <= pass < PASSES
                       && k in ModuleKeys(s, tree, dir, pass) :: k
  }

  lemma {:induction false} PerformWrites(st: Stores, writes: seq<Action>)
    requires forall a :: a in writes ==> a.Write?
    ensures PerformAll(st, writes) == st.(graph := st.graph + Written(writes))
  {
    if writes != [] {
      SplitLast(writes);
      PerformWrites(st, writes[..|writes| - 1]);
    }
  }

  /** All keys of the module are among these. */
  ghost predicate DirWithin(s: Scanner, tree: Tree, dir: Path, all: set<NodeKey>) {
    forall p: nat :: p < PASSES ==> ModuleKeys(s, tree, dir, p) <= all
  }

  lemma {:induction false} PassWithin(s: Scanner, tree: Tree, dirs: seq<Path>, pass: nat, all: set<NodeKey>)
    requires pass < PASSES && forall d :: d in dirs ==> DirWithin(s, tree, d, all)
    ensures Written(PassWrites(s, tree, dirs, pass)) <= all
  {
    if dirs != [] {
      var front, ws := dirs[..|dirs| - 1], PassWrites(s, tree, dirs, pass);
      PassWithin(s, tree, front, pass, all);
      assert ws[..|ws| - 1] == PassWrites(s, tree, front, pass);
      assert DirWithin(s, tree, dirs[|dirs| - 1], all);
    }
  }

  lemma {:induction false} WritesWithin(s: Scanner, tree: Tree, dirs: seq<Path>, passes: nat, all: set<NodeKey>)
    requires passes <= PASSES && forall d :: d in dirs ==> DirWithin(s, tree, d, all)
    ensures Written(Writes(s, tree, dirs, passes)) <= all
  {
    if passes > 0 {
      var front, last := Writes(s, tree, dirs, passes - 1), PassWrites(s, tree, dirs, passes - 1);
      WritesWithin(s, tree, dirs, passes - 1, all);
      PassWithin(s, tree, dirs, passes - 1, all);
      assert Written(front + last) <= all by { WrittenConcat(front, last); }
    }
  }

  lemma {:induction false} BatchesWithin(infos: seq<set<NodeKey>>, size: Size, i: nat, all: set<NodeKey>)
    requires forall j :: 0 <= j < |infos| ==> infos[j] <= all
    ensures Written(Batches(infos, size, i)) <= all
    decreases |infos| - i
  {
    if i < |infos| {
      var first := Batch(infos, size, i);
      BatchesWithin(infos, size, i + size, all);
      WrittenConcat([first], Batches(infos, size, i + size));
      assert Written([first]) == first.keys by { assert [first][..0] == []; }
    }
  }

  lemma {:induction false} SheetsWithin(s: Scanner, tree: Tree, dirs: seq<Path>, sheets: Path -> seq<Path>,
                                        all: set<NodeKey>)
    requires forall d :: d in dirs ==> DirWithin(s, tree, d, all)
    ensures forall j :: 0 <= j < |AllSheets(s, tree, dirs, sheets)| ==> AllSheets(s, tree, dirs, sheets)[j] <= all
  {
    if dirs != [] {
      var last := dirs[|dirs| - 1];
      SheetsWithin(s, tree, dirs[..|dirs| - 1], sheets, all);
      assert DirWithin(s, tree, last, all);
      var own := SheetKeys(s, tree, last, sheets(last));
      forall i | 0 <= i < |own| ensures own[i] <= all {
        assert own[i] <= ModuleKeys(s, tree, last, SHEETS);
      }
    }
  }

  /** Writing some modules adds exactly their node keys. */
  lemma WrittenExactly(s: Scanner, req: Request, chosen: set<Path>)
    requires chosen <= RegisteredDirs(s, req.files) <= Elems(req.order) && SheetsListed(s, req)
    ensures Written(WriteAll(s, req, chosen)) == KeysOfDirs(s, req.files, chosen)
  {
    var tree, dirs, all := req.files, Pick(req.order, chosen), KeysOfDirs(s, req.files, chosen);
    PickedChosen(req.order, chosen);
    var infos := AllSheets(s, tree, dirs, req.sheets);
    assert forall d :: d in dirs ==> DirWithin(s, tree, d, all);
    WritesWithin(s, tree, dirs, SHEETS, all);
    SheetsWithin(s, tree, dirs, req.sheets, all);
    BatchesWithin(infos, req.batch, 0, all);
    WrittenConcat(Writes(s, tree, dirs, SHEETS), Batches(infos, req.batch, 0));
    AllWritten(s, req, chosen);
  }

  /** The stored head is HEAD and no full run is asked for. */
  predicate UpToDate(req: Request, stored: Option<Name>) {
    !req.fullReindex && req.head.Some? && stored == req.head
  }

  /** HEAD has moved on from the stored head. */
  predicate Filters(req: Request, stored: Option<Name>) {
    !req.fullReindex && req.head.Some? && stored.Some? && stored != req.head && req.isAncestor
  }

  /** The modules a run has to write: none when nothing moved, the registered modules that the
      diff touches when HEAD moved on, and otherwise all registered modules. */
  function ToWrite(s: Scanner, req: Request, stored: Option<Name>): set<Path> {
    if UpToDate(req, stored) then {}
    else if !Filters(req, stored) then RegisteredDirs(s, req.files)
    else if req.listing.None? then {}
    else RegisteredDirs(s, req.files) * ModulesOf(req.files, req.listing.value)
  }

  /** Main result on one run. It adds exactly the node keys of the modules it has to write. It
      stores HEAD for its own repository unless that is up to date or HEAD is unknown, takes
      the head from the repositories downstream when it filtered and wrote, and leaves every
      other head. */
  lemma RunOutcome(env: Env, req: Request, st: Stores)
    requires RegisteredDirs(env.scanner(req.repo), req.files) <= Elems(req.order)
    requires SheetsListed(env.scanner(req.repo), req)
    ensures var s, stored := env.scanner(req.repo), StoredHead(st.heads, req.repo);
            var end := PerformAll(st, Plan(env, req, stored));
            && end.graph == st.graph + KeysOfDirs(s, req.files, ToWrite(s, req, stored))
            && end.heads.Keys == st.heads.Keys
            && (req.repo in st.heads ==>
                  end.heads[req.repo] == if UpToDate(req, stored) || req.head.None? then stored else req.head)
            && forall r :: r in st.heads && r != req.repo ==>
                 end.heads[r] == if Filters(req, stored) && ToWrite(s, req, stored) != {} && r in req.downstream
                                 then None else st.heads[r]
  {
    var s, stored := env.scanner(req.repo), StoredHead(st.heads, req.repo);
    var plan, chosen := Plan(env, req, stored), ToWrite(s, req, stored);
    if UpToDate(req, stored) {
    } else if Filters(req, stored) && chosen == {} {
      assert RegisteredDirs(s, req.files) * {} == {};
      assert plan == [Advance(req.repo, req.head.value)] && plan[..0] == [];
    } else {
      var ws := WriteAll(s, req, chosen);
      AllWritten(s, req, chosen);
      WrittenExactly(s, req, chosen);
      PerformWrites(st, ws);
      if req.head.Some? {
        PerformTail(st, ws, Advance(req.repo, req.head.value), Reset(req.downstream - {req.repo}));
        HeadsAfter(PerformAll(st, ws), req.repo, req.head.value, req.downstream - {req.repo});
      } else {
        assert plan == ws;
      }
    }
  }

  lemma HeadsAfter(st: Stores, repo: int, sha: Name, downstream: set<int>)
    requires repo !in downstream
    ensures var advanced := Perform(st, Advance(repo, sha));
            var end := Perform(advanced, Reset(downstream));
            && advanced.graph == end.graph == st.graph && advanced.heads.Keys == end.heads.Keys == st.heads.Keys
            && (repo in st.heads ==> advanced.heads[repo] == end.heads[repo] == Some(sha))
            && forall r :: r in st.heads && r != repo ==>
                 advanced.heads[r] == st.heads[r] && end.heads[r] == if r in downstream then None else st.heads[r]
  {
  }

  /** So a run that can rely on its inputs ends with HEAD indexed and stored. */
  lemma IndexedAfterRun(env: Env, req: Request, st: Stores)
    requires Faithful(env, req, StoredHead(st.heads, req.repo)) && HeadsCovered(env, st)
    requires req.head.Some? && req.repo in st.heads
    ensures var end := PerformAll(st, Plan(env, req, StoredHead(st.heads, req.repo)));
            && Covered(env.scanner(req.repo), req.files, end.graph) && StoredHead(end.heads, req.repo) == req.head
  {
    var s, stored := env.scanner(req.repo), StoredHead(st.heads, req.repo);
    var end := PerformAll(st, Plan(env, req, stored));
    var chosen := ToWrite(s, req, stored);
    RunOutcome(env, req, st);
    forall d, p: nat | d in chosen && p < PASSES
      ensures ModuleKeys(s, req.files, d, p) <= end.graph
    {
    }
    if Filters(req, stored) {
      ChosenCovers(s, env.tree(stored.value), req.files, req.listing.value, chosen, st.graph, end.graph);
    } else if !UpToDate(req, stored) {
      forall dir: Path, pass: nat | Registered(s, req.files, dir) && pass < PASSES
        ensures ModuleKeys(s, req.files, dir, pass) <= end.graph
      {
        RegisteredDirsRight(s, req.files, dir);
      }
    }
  }

  // ----- Any number of workers, stopping anywhere -----

  /** The stores and, per worker, the actions it has left. */
  datatype World = World(stores: Stores, workers: map<int, seq<Action>>)

  datatype Step =
    | Start(worker: int, req: Request)
    | Act(worker: int)
    | Crash(worker: int)

  function Left(w: World, worker: int): seq<Action> {
    if worker in w.workers then w.workers[worker] else []
  }

  function Next(env: Env, w: World, step: Step): World {
    match step
    case Start(i, req) =>
      var plan := Plan(env, req, StoredHead(w.stores.heads, req.repo));
      if Left(w, i) == [] then w.(workers := w.workers[i := plan]) else w
    case Act(i) =>
      if Left(w, i) != [] then World(Perform(w.stores, Left(w, i)[0]), w.workers[i := Left(w, i)[1..]]) else w
    case Crash(i) => w.(workers := w.workers[i := []])
  }

  ghost predicate Invariant(env: Env, w: World) {
    HeadsCovered(env, w.stores) && forall i :: i in w.workers ==> Safe(env, w.stores.graph, w.workers[i])
  }

  ghost predicate StepFaithful(env: Env, w: World, step: Step) {
    step.Start? ==> Faithful(env, step.req, StoredHead(w.stores.heads, step.req.repo))
  }

  lemma CoveredMonotone(s: Scanner, tree: Tree, small: set<NodeKey>, large: set<NodeKey>)
    requires Covered(s, tree, small) && small <= large
    ensures Covered(s, tree, large)
  {
  }

  lemma StepKeepsInvariant(env: Env, w: World, step: Step)
    requires Invariant(env, w) && StepFaithful(env, w, step)
    ensures Invariant(env, Next(env, w, step))
  {
    match step
    case Start(i, req) =>
      PlanSafe(env, req, StoredHead(w.stores.heads, req.repo), w.stores.graph);
    case Act(i) =>
      if Left(w, i) != [] {
        var next := Next(env, w, step);
        assert Safe(env, w.stores.graph, w.workers[i]);
        forall r | r in next.stores.heads && next.stores.heads[r].Some?
          ensures Covered(env.scanner(r), env.tree(next.stores.heads[r].value), next.stores.graph)
        {
          if !(Left(w, i)[0].Advance? && Left(w, i)[0].repo == r) {
            CoveredMonotone(env.scanner(r), env.tree(w.stores.heads[r].value), w.stores.graph, next.stores.graph);
          }
        }
        forall j | j in next.workers ensures Safe(env, next.stores.graph, next.workers[j]) {
          if j != i {
            SafeMonotone(env, w.stores.graph, next.stores.graph, w.workers[j]);
          }
        }
      }
    case Crash(i) =>
  }

  function Run(env: Env, start: World, steps: seq<Step>): World {
    if steps == [] then start else Next(env, Run(env, start, steps[..|steps| - 1]), steps[|steps| - 1])
  }

  /** Main result. Whatever the workers do, and wherever they stop, a stored head sha stands
      for a commit all of whose node keys are in the graph. */
  lemma {:induction false} StoredHeadsAreIndexed(env: Env, start: World, steps: seq<Step>)
    requires Invariant(env, start)
    requires forall k :: 0 <= k < |steps| ==> StepFaithful(env, Run(env, start, steps[..k]), steps[k])
    ensures Invariant(env, Run(env, start, steps))
    ensures HeadsCovered(env, Run(env, start, steps).stores)
  {
    if steps != [] {
      var front := steps[..|steps| - 1];
      assert forall k :: 0 <= k < |front| ==> front[..k] == steps[..k] && front[k] == steps[k];
      StoredHeadsAreIndexed(env, start, front);
      StepKeepsInvariant(env, Run(env, start, front), steps[|steps| - 1]);
    }
  }

  // ----- A diff that git did not answer -----

  /** When git diff fails, no module is written and the stored head still moves. */
  lemma FailedDiffAdvances(env: Env, req: Request, st: Stores)
    requires req.head.Some? && req.listing.None?
    requires DiffBase(req, StoredHead(st.heads, req.repo)).Some? && StoredHead(st.heads, req.repo) != req.head
    ensures PerformAll(st, Plan(env, req, StoredHead(st.heads, req.repo))) ==
              st.(heads := st.heads[req.repo := req.head])
  {
    var plan := Plan(env, req, StoredHead(st.heads, req.repo));
    assert RegisteredDirs(env.scanner(req.repo), req.files) * {} == {};
    assert plan == [Advance(req.repo, req.head.value)] && plan[..|plan| - 1] == [];
  }

  /** After a failed diff every graph that held the stored commit holds the new one too
      exactly when the new commit yields no node key that the stored one does not: two
      commits decide, whatever is in the stores. */
  lemma FailedDiffKeepsHeadsIff(env: Env, req: Request, stored: Name)
    requires req.head.Some? && req.listing.None?
    requires DiffBase(req, Some(stored)).Some? && req.head.value != stored
    ensures (forall st :: HeadsCovered(env, st) && StoredHead(st.heads, req.repo) == Some(stored) ==>
               HeadsCovered(env, PerformAll(st, Plan(env, req, Some(stored))))) <==>
            KeysOf(env.scanner(req.repo), env.tree(req.head.value)) <= KeysOf(env.scanner(req.repo), env.tree(stored))
  {
    var s, before, after := env.scanner(req.repo), env.tree(stored), env.tree(req.head.value);
    if KeysOf(s, after) <= KeysOf(s, before) {
      forall st | HeadsCovered(env, st) && StoredHead(st.heads, req.repo) == Some(stored)
        ensures HeadsCovered(env, PerformAll(st, Plan(env, req, Some(stored))))
      {
        FailedDiffAdvances(env, req, st);
        CoveredIffKeys(s, before, st.graph);
        CoveredIffKeys(s, after, st.graph);
      }
    } else {
      var st := Stores(KeysOf(s, before), map[req.repo := Some(stored)]);
      var next := PerformAll(st, Plan(env, req, Some(stored)));
      FailedDiffAdvances(env, req, st);
      CoveredIffKeys(s, before, st.graph);
      CoveredIffKeys(s, after, st.graph);
      assert next.heads[req.repo] == req.head;
      assert HeadsCovered(env, st) && !HeadsCovered(env, next);
    }
  }

  /** An input on which that goes wrong: a module whose only file changed. */
  lemma FailedDiffLosesKeys() returns (env: Env, req: Request, st: Stores)
    ensures HeadsCovered(env, st) && req.head.Some? && req.listing.None?
    ensures !HeadsCovered(env, PerformAll(st, Plan(env, req, StoredHead(st.heads, req.repo))))
  {
    var dir, older, newer := Path([Name("sale")]), Name("older"), Name("newer");
    var scanner := Scanner(MANIFEST, b => true, (t, d) => true, (d, m, p, b: Blob, n) => {NodeKey(Name(b.text), [])});
    env := Env(sha => if sha == newer then map[In(dir, MANIFEST) := Blob("2")] else map[In(dir, MANIFEST) := Blob("1")],
               r => scanner);
    req := Request(1, false, Some(newer), env.tree(newer), true, None, [dir], {}, d => [In(d, MANIFEST)], 1);
    st := Stores({NodeKey(Name("1"), [])}, map[1 := Some(older)]);
    assert newer.text[0] != older.text[0];
    forall d: Path, pass: nat | Registered(scanner, env.tree(older), d) && pass < PASSES
      ensures ModuleKeys(scanner, env.tree(older), d, pass) <= st.graph
    {
    }
    var after := env.tree(newer);
    assert dir.parts[0] !in SKIPPED;
    assert Elems(dir.parts) == {Name("sale")};
    assert Registered(scanner, after, dir);
    assert In(dir, MANIFEST).parts[..1] == dir.parts;
    assert Under(dir, In(dir, MANIFEST));
    var m := In(dir, MANIFEST);
    assert m in after && after[m] == Blob("2");
    assert NodeKey(Name("2"), []) in KeysOfFile(scanner, after, dir, m, 0);
    assert NodeKey(Name("2"), []) in ModuleKeys(scanner, after, dir, 0);
    assert Name("1").text != Name("2").text by { assert "1"[0] != "2"[0]; }
    assert NodeKey(Name("2"), []) !in st.graph;
    FailedDiffAdvances(env, req, st);
    assert PerformAll(st, Plan(env, req, StoredHead(st.heads, req.repo))).heads[1] == Some(newer);
  }
}
