/** The module dependency sort (`src/indexer/resolver.py`): Kahn's algorithm with the
    modules it cannot place appended in alphabetical order. */
module Resolver {
  import opened Common
  import opened Names

  /** Module name to its `depends` list, as the manifest gives it. */
  type Graph = map<Name, seq<Name>>

  /** The dependencies of `m` that are themselves being sorted. */
  function Deps(g: Graph, m: Name): set<Name>
    requires m in g
  {
    set d | d in g[m] && d in g
  }

  /** The modules whose dependencies all lie in `done`. */
  function Ready(g: Graph, done: set<Name>): set<Name> {
    set m | m in g && Deps(g, m) <= done
  }

  // ----- The order as a function of the graph alone -----

  /** `queue` and `done` list, without repeats, the modules ready after `done`; each
      module of `done` comes after its dependencies. */
  ghost predicate KahnState(g: Graph, queue: seq<Name>, done: seq<Name>) {
    && NoDup(done) && NoDup(queue) && Elems(done) !! Elems(queue)
    && Elems(done) + Elems(queue) == Ready(g, Elems(done))
    && DependenciesFirst(g, done)
  }

  ghost predicate DependenciesFirst(g: Graph, order: seq<Name>) {
    forall i {:trigger order[..i]} :: 0 <= i < |order| ==>
      order[i] in g && Deps(g, order[i]) <= Elems(order[..i])
  }

  /** The modules that become ready once `node` is added to `done`. */
  function Released(g: Graph, done: set<Name>, node: Name): set<Name> {
    Ready(g, done + {node}) - Ready(g, done)
  }

  lemma KahnStep(g: Graph, queue: seq<Name>, done: seq<Name>)
    requires KahnState(g, queue, done) && queue != []
    ensures KahnState(g, queue[1..] + SortedSet(Released(g, Elems(done), queue[0])), done + [queue[0]])
    ensures queue[0] in g && queue[0] !in done
  {
    var node := queue[0];
    var done' := done + [node];
    var rest, added := queue[1..], SortedSet(Released(g, Elems(done), node));
    NoDupTail(queue);
    assert node in Elems(queue);
    assert node !in Elems(done);
    NoDupAppend(done, node);
    assert Ready(g, Elems(done)) <= Ready(g, Elems(done'));
    NoDupConcat(rest, added);
    FirstAppended(g, done, node);
  }

  lemma FirstAppended(g: Graph, done: seq<Name>, node: Name)
    requires DependenciesFirst(g, done) && node in Ready(g, Elems(done))
    ensures DependenciesFirst(g, done + [node])
  {
    var done' := done + [node];
    forall i | 0 <= i < |done'| ensures done'[i] in g && Deps(g, done'[i]) <= Elems(done'[..i]) {
      assert done'[..i] == if i < |done| then done[..i] else done;
    }
  }

  lemma DoneAtMost(g: Graph, done: seq<Name>)
    requires NoDup(done) && Elems(done) <= g.Keys
    ensures |done| <= |g|
    ensures |done| == |g| ==> Elems(done) == g.Keys
  {
    NoDupCard(done);
    SubsetCard(Elems(done), g.Keys);
  }

  /** Drain the queue: its head is placed next, and what it releases joins the end
      of the queue in alphabetical order. */
  ghost function Kahn(g: Graph, queue: seq<Name>, done: seq<Name>): (r: seq<Name>)
    requires KahnState(g, queue, done)
    ensures KahnState(g, [], r)
    decreases |g| - |done|
  {
    if queue == [] then done
    else
      KahnStep(g, queue, done);
      DoneAtMost(g, done + [queue[0]]);
      Kahn(g, queue[1..] + SortedSet(Released(g, Elems(done), queue[0])), done + [queue[0]])
  }

  /** The modules Kahn's algorithm places. */
  ghost function Placed(g: Graph): (r: seq<Name>)
    ensures KahnState(g, [], r)
  {
    assert Elems<Name>([]) == {};
    Kahn(g, SortedSet(Ready(g, {})), [])
  }

  /** The whole order: what was placed, then the leftovers in alphabetical order. */
  ghost function SortOrder(g: Graph): seq<Name> {
    Placed(g) + SortedSet(g.Keys - Elems(Placed(g)))
  }

  // ----- Counting dependency entries, as the in-degrees do -----

  /** How many entries of `deps` name a module of `waiting`. */
  function Pending(deps: seq<Name>, waiting: set<Name>): nat {
    if deps == [] then 0
    else Pending(deps[..|deps| - 1], waiting) + if deps[|deps| - 1] in waiting then 1 else 0
  }

  lemma {:induction false} PendingZero(deps: seq<Name>, waiting: set<Name>)
    ensures Pending(deps, waiting) == 0 <==> Elems(deps) !! waiting
  {
    if deps != [] {
      SplitLast(deps);
      PendingZero(deps[..|deps| - 1], waiting);
    }
  }

  lemma {:induction false} PendingRemove(deps: seq<Name>, waiting: set<Name>, node: Name)
    requires node in waiting
    ensures Pending(deps, waiting) == Pending(deps, waiting - {node}) + multiset(deps)[node]
  {
    if deps != [] {
      SplitLast(deps);
      PendingRemove(deps[..|deps| - 1], waiting, node);
      assert multiset(deps) == multiset(deps[..|deps| - 1]) + multiset{deps[|deps| - 1]};
    }
  }

  /** `dependents` lists `m` under `d` once for each entry `d` of `m`'s depends. */
  ghost predicate Reversed(g: Graph, dependents: map<Name, seq<Name>>) {
    && dependents.Keys == g.Keys
    && forall d, m {:trigger multiset(dependents[d])[m]} :: d in g ==>
         multiset(dependents[d])[m] == if m in g then multiset(g[m])[d] else 0
  }

  ghost predicate Degrees(g: Graph, inDegree: map<Name, int>, done: set<Name>) {
    && inDegree.Keys == g.Keys
    && forall m :: m in g ==> inDegree[m] == Pending(g[m], g.Keys - done)
  }

  // ----- The method -----

  method TopologicalSort(names: seq<Name>, modules: Graph) returns (result: seq<Name>)
    requires NoDup(names) && Elems(names) == modules.Keys
    ensures result == SortOrder(modules)
  {
    if names == [] {
      return [];
    }
    var inDegree, dependents := BuildDegrees(names, modules);
    var roots := set m | m in names && inDegree[m] == 0;
    RootsReady(modules, inDegree);
    assert roots == Ready(modules, {});
    var queue := SortSet(names, roots);
    result := Place(modules, inDegree, dependents, queue);
    if |result| < |names| {
      var remaining := SortSet(names, modules.Keys - Elems(result));
      result := result + remaining;
    } else {
      NoDupCard(names);
      AllPlaced(modules);
    }
  }

  lemma AllPlaced(g: Graph)
    requires |Placed(g)| >= |g|
    ensures SortOrder(g) == Placed(g)
  {
    DoneAtMost(g, Placed(g));
    assert g.Keys - Elems(Placed(g)) == {};
  }

  /** The queue loop. */
  method Place(modules: Graph, inDegree: map<Name, int>, dependents: map<Name, seq<Name>>, start: seq<Name>)
    returns (result: seq<Name>)
    requires Degrees(modules, inDegree, {}) && Reversed(modules, dependents)
    requires start == SortedSet(Ready(modules, {}))
    ensures result == Placed(modules)
  {
    result := [];
    var degrees, queue := inDegree, start;
    assert Elems(result) == {};
    while queue != []
      invariant KahnState(modules, queue, result)
      invariant Kahn(modules, queue, result) == Placed(modules)
      invariant Degrees(modules, degrees, Elems(result))
      decreases |modules| - |result|
    {
      var node := queue[0];
      KahnStep(modules, queue, result);
      NoDupAppend(result, node);
      DoneAtMost(modules, result + [node]);
      var released;
      degrees, released := Release(modules, degrees, dependents, node, Elems(result));
      result := result + [node];
      queue := queue[1..];
      queue := queue + released;
    }
  }

  lemma RootsReady(g: Graph, inDegree: map<Name, int>)
    requires Degrees(g, inDegree, {})
    ensures forall m :: m in Ready(g, {}) <==> m in g && inDegree[m] == 0
  {
    forall m | m in g ensures m in Ready(g, {}) <==> inDegree[m] == 0 {
      DepsDone(g, m, {});
    }
  }

  /** `sorted` of a set of names, listed in some order by `names`. */
  method SortSet(names: seq<Name>, s: set<Name>) returns (r: seq<Name>)
    requires NoDup(names) && s <= Elems(names)
    ensures r == SortedSet(s)
  {
    r := [];
    for i := 0 to |names|
      invariant NoDup(r) && Elems(r) == Elems(names[..i]) * s
    {
      NoDupAppend(r, names[i]);
      if names[i] in s {
        r := r + [names[i]];
      }
    }
    assert names[..|names|] == names;
    assert Elems(names) * s == s;
    r := SortDistinct(r);
  }

  method SortDistinct(s: seq<Name>) returns (r: seq<Name>)
    requires NoDup(s)
    ensures r == SortedSet(Elems(s))
  {
    r := SortList(s);
    SortListDistinct(s);
  }

  lemma SortListDistinct(s: seq<Name>)
    requires NoDup(s)
    ensures SortList(s) == SortedSet(Elems(s))
  {
    var r := SortList(s);
    MultisetElems(s, r);
    NoDupIndices(r);
    forall i, j | 0 <= i < j < |r| ensures r[i] != r[j] {
      NoDupOnce(s, r[i]);
      if r[i] == r[j] {
        RepeatCounts(r, i, j);
        assert false;
      }
    }
    AscendingUnique(r);
  }

  lemma MultisetElems<T>(s: seq<T>, r: seq<T>)
    requires multiset(s) == multiset(r)
    ensures Elems(s) == Elems(r)
  {
    forall x ensures x in s <==> x in r {
      assert x in s <==> x in multiset(s);
      assert x in r <==> x in multiset(r);
    }
  }

  lemma RepeatCounts<T>(r: seq<T>, i: nat, j: nat)
    requires i < j < |r| && r[i] == r[j]
    ensures multiset(r)[r[i]] >= 2
  {
    assert r == r[..j] + r[j..];
    assert r[i] in r[..j] && r[j] in r[j..];
    assert multiset(r[..j])[r[i]] >= 1 && multiset(r[j..])[r[i]] >= 1;
  }

  lemma {:induction false} NoDupOnce<T>(s: seq<T>, x: T)
    requires NoDup(s)
    ensures multiset(s)[x] <= 1
  {
    if s != [] {
      NoDupFront(s);
      NoDupOnce(s[..|s| - 1], x);
      SplitLast(s);
    }
  }

  type Counts = (map<Name, int>, map<Name, seq<Name>>)

  /** In-degrees and dependents after the entries `deps` of module `name`. */
  function CountEntries(g: Graph, name: Name, deps: seq<Name>, acc: Counts): (r: Counts)
    requires acc.0.Keys == acc.1.Keys == g.Keys && name in g
    ensures r.0.Keys == r.1.Keys == g.Keys
  {
    if deps == [] then acc
    else
      var r := CountEntries(g, name, deps[..|deps| - 1], acc);
      var dep := deps[|deps| - 1];
      if dep in g then (r.0[name := r.0[name] + 1], r.1[dep := r.1[dep] + [name]]) else r
  }

  function CountModules(g: Graph, names: seq<Name>): (r: Counts)
    requires Elems(names) <= g.Keys
    ensures r.0.Keys == r.1.Keys == g.Keys
  {
    if names == [] then (map m | m in g :: 0, map m | m in g :: [])
    else
      SplitLast(names);
      var name := names[|names| - 1];
      assert name in Elems(names);
      CountEntries(g, name, g[name], CountModules(g, names[..|names| - 1]))
  }

  lemma {:induction false} CountEntriesAt(g: Graph, name: Name, deps: seq<Name>, acc: Counts, d: Name, m: Name)
    requires acc.0.Keys == acc.1.Keys == g.Keys && name in g && d in g
    ensures var r := CountEntries(g, name, deps, acc);
            && (m in g ==> r.0[m] == acc.0[m] + if m == name then Pending(deps, g.Keys) else 0)
            && multiset(r.1[d])[m] == multiset(acc.1[d])[m] + if m == name then multiset(deps)[d] else 0
  {
    if deps != [] {
      SplitLast(deps);
      CountEntriesAt(g, name, deps[..|deps| - 1], acc, d, m);
      assert multiset(deps) == multiset(deps[..|deps| - 1]) + multiset{deps[|deps| - 1]};
    }
  }

  lemma {:induction false} CountModulesAt(g: Graph, names: seq<Name>, d: Name, m: Name)
    requires NoDup(names) && Elems(names) <= g.Keys && d in g
    ensures var r := CountModules(g, names);
            && (m in g ==> r.0[m] == if m in Elems(names) then Pending(g[m], g.Keys) else 0)
            && multiset(r.1[d])[m] == if m in Elems(names) then multiset(g[m])[d] else 0
  {
    if names != [] {
      NoDupFront(names);
      var front, name := names[..|names| - 1], names[|names| - 1];
      CountModulesAt(g, front, d, m);
      CountEntriesAt(g, name, g[name], CountModules(g, front), d, m);
    }
  }

  lemma DegreesRight(g: Graph, names: seq<Name>)
    requires NoDup(names) && Elems(names) == g.Keys
    ensures Degrees(g, CountModules(g, names).0, {})
  {
    forall m | m in g ensures CountModules(g, names).0[m] == Pending(g[m], g.Keys - {}) {
      assert g.Keys - {} == g.Keys;
      CountModulesAt(g, names, m, m);
    }
  }

  lemma ReversedRight(g: Graph, names: seq<Name>)
    requires NoDup(names) && Elems(names) == g.Keys
    ensures Reversed(g, CountModules(g, names).1)
  {
    var dependents := CountModules(g, names).1;
    forall d, m | d in g ensures multiset(dependents[d])[m] == if m in g then multiset(g[m])[d] else 0 {
      CountModulesAt(g, names, d, m);
    }
  }

  /** Count dependency entries and list the dependents of each module. */
  method BuildDegrees(names: seq<Name>, modules: Graph)
    returns (inDegree: map<Name, int>, dependents: map<Name, seq<Name>>)
    requires NoDup(names) && Elems(names) == modules.Keys
    ensures Degrees(modules, inDegree, {})
    ensures Reversed(modules, dependents)
  {
    inDegree := map m | m in modules :: 0;
    dependents := map m | m in modules :: [];
    for i := 0 to |names|
      invariant Elems(names[..i]) <= modules.Keys
      invariant (inDegree, dependents) == CountModules(modules, names[..i])
    {
      assert names[..i + 1][..i] == names[..i];
      inDegree, dependents := CountDepends(modules, names[i], inDegree, dependents);
    }
    assert names[..|names|] == names;
    DegreesRight(modules, names);
    ReversedRight(modules, names);
  }

  method CountDepends(modules: Graph, name: Name, inDegree: map<Name, int>, dependents: map<Name, seq<Name>>)
    returns (inDegree': map<Name, int>, dependents': map<Name, seq<Name>>)
    requires inDegree.Keys == dependents.Keys == modules.Keys && name in modules
    ensures (inDegree', dependents') == CountEntries(modules, name, modules[name], (inDegree, dependents))
  {
    var depends := modules[name];
    inDegree', dependents' := inDegree, dependents;
    for j := 0 to |depends|
      invariant (inDegree', dependents') == CountEntries(modules, name, depends[..j], (inDegree, dependents))
    {
      var dep := depends[j];
      assert depends[..j + 1][..j] == depends[..j];
      if dep in modules {
        inDegree' := inDegree'[name := inDegree'[name] + 1];
        dependents' := dependents'[dep := dependents'[dep] + [name]];
      }
    }
    assert depends[..|depends|] == depends;
  }

  /** Placing `node` lowers the in-degree of its dependents, and those that reach 0
      are released in alphabetical order. */
  method Release(modules: Graph, inDegree: map<Name, int>, dependents: map<Name, seq<Name>>,
                 node: Name, ghost done: set<Name>)
    returns (after: map<Name, int>, released: seq<Name>)
    requires Degrees(modules, inDegree, done) && Reversed(modules, dependents)
    requires node in modules && node !in done
    ensures Degrees(modules, after, done + {node})
    ensures released == SortedSet(Released(modules, done, node))
  {
    var list := SortList(dependents[node]);
    ReleaseCounts(modules, inDegree, list, node, done);
    after, released := Decrement(inDegree, list);
    assert Degrees(modules, after, done + {node}) by {
      forall m | m in modules ensures after[m] == Pending(modules[m], modules.Keys - (done + {node})) {
        DecrementedDegree(inDegree, list, m);
      }
    }
    DecrementedReleases(inDegree, list);
    DecrementedOrder(inDegree, list);
    AscendingUnique(released);
  }

  lemma ReleaseCounts(g: Graph, inDegree: map<Name, int>, list: seq<Name>, node: Name, done: set<Name>)
    requires Degrees(g, inDegree, done) && node in g && node !in done
    requires forall m :: multiset(list)[m] == if m in g then multiset(g[m])[node] else 0
    ensures Elems(list) <= inDegree.Keys
    ensures forall m :: m in g ==>
              inDegree[m] == Pending(g[m], g.Keys - (done + {node})) + multiset(list)[m]
    ensures Released(g, done, node) == set m | m in Elems(list) && inDegree[m] == multiset(list)[m]
  {
    assert g.Keys - done - {node} == g.Keys - (done + {node});
    forall m | m in g
      ensures inDegree[m] == Pending(g[m], g.Keys - (done + {node})) + multiset(list)[m]
      ensures m in Released(g, done, node) <==> m in list && inDegree[m] == multiset(list)[m]
    {
      PendingRemove(g[m], g.Keys - done, node);
      DepsDone(g, m, done);
      DepsDone(g, m, done + {node});
      assert m in list <==> multiset(list)[m] > 0;
    }
    forall m | m in list ensures m in g {
      assert multiset(list)[m] > 0;
    }
  }

  /** A module is ready exactly when it has no pending entry. */
  lemma DepsDone(g: Graph, m: Name, done: set<Name>)
    requires m in g
    ensures m in Ready(g, done) <==> Pending(g[m], g.Keys - done) == 0
  {
    PendingZero(g[m], g.Keys - done);
    if m in Ready(g, done) {
      forall d | d in Elems(g[m]) ensures d !in g.Keys - done {
        if d in g {
          assert d in Deps(g, m);
        }
      }
    }
    if Pending(g[m], g.Keys - done) == 0 {
      forall d | d in Deps(g, m) ensures d in done {
        assert d in Elems(g[m]);
      }
    }
  }

  /** One decrement per entry of a list; what reaches 0 is collected. */
  function Decremented(inDegree: map<Name, int>, list: seq<Name>): (r: (map<Name, int>, seq<Name>))
    requires Elems(list) <= inDegree.Keys
    ensures r.0.Keys == inDegree.Keys
  {
    if list == [] then (inDegree, [])
    else
      SplitLast(list);
      var (degrees, released) := Decremented(inDegree, list[..|list| - 1]);
      var dependent := list[|list| - 1];
      var degree := degrees[dependent] - 1;
      (degrees[dependent := degree], if degree == 0 then released + [dependent] else released)
  }

  lemma {:induction false} DecrementedDegree(inDegree: map<Name, int>, list: seq<Name>, m: Name)
    requires Elems(list) <= inDegree.Keys && m in inDegree
    ensures Decremented(inDegree, list).0[m] == inDegree[m] - multiset(list)[m]
  {
    if list != [] {
      SplitLast(list);
      DecrementedDegree(inDegree, list[..|list| - 1], m);
      assert multiset(list) == multiset(list[..|list| - 1]) + multiset{list[|list| - 1]};
    }
  }

  /** On a list with no more entries of a name than its in-degree, the names collected
      are those that ended at 0. */
  lemma {:induction false} DecrementedReleases(inDegree: map<Name, int>, list: seq<Name>)
    requires Elems(list) <= inDegree.Keys
    requires forall m :: m in Elems(list) ==> multiset(list)[m] <= inDegree[m]
    ensures Elems(Decremented(inDegree, list).1) == set m | m in Elems(list) && inDegree[m] == multiset(list)[m]
  {
    if list != [] {
      var front, x := list[..|list| - 1], list[|list| - 1];
      SplitLast(list);
      assert multiset(list) == multiset(front) + multiset{x};
      DecrementedReleases(inDegree, front);
      DecrementedDegree(inDegree, front, x);
      ElemsConcat(Decremented(inDegree, front).1, [x]);
    }
  }

  /** They are collected in the order of the list, and once each. */
  lemma {:induction false} DecrementedOrder(inDegree: map<Name, int>, list: seq<Name>)
    requires Elems(list) <= inDegree.Keys && Ascending(list)
    requires forall m :: m in Elems(list) ==> multiset(list)[m] <= inDegree[m]
    ensures NoDup(Decremented(inDegree, list).1) && Ascending(Decremented(inDegree, list).1)
  {
    if list != [] {
      var front, x := list[..|list| - 1], list[|list| - 1];
      SplitLast(list);
      assert multiset(list) == multiset(front) + multiset{x};
      DecrementedOrder(inDegree, front);
      DecrementedReleases(inDegree, front);
      DecrementedDegree(inDegree, front, x);
      var r := Decremented(inDegree, front).1;
      NoDupAppend(r, x);
      forall i | 0 <= i < |r| ensures Le(r[i], x) {
        assert r[i] in Elems(r);
        var j :| 0 <= j < |front| && front[j] == r[i];
        assert Le(list[j], list[|list| - 1]);
      }
    }
  }

  method Decrement(inDegree: map<Name, int>, list: seq<Name>)
    returns (after: map<Name, int>, released: seq<Name>)
    requires Elems(list) <= inDegree.Keys
    ensures (after, released) == Decremented(inDegree, list)
  {
    after := inDegree;
    released := [];
    for k := 0 to |list|
      invariant Elems(list[..k]) <= inDegree.Keys && (after, released) == Decremented(inDegree, list[..k])
    {
      var dependent := list[k];
      assert dependent in Elems(list);
      assert list[..k + 1][..k] == list[..k];
      after := after[dependent := after[dependent] - 1];
      if after[dependent] == 0 {
        released := released + [dependent];
      }
    }
    assert list[..|list|] == list;
  }
}
