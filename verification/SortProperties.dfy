/** What the dependency sort promises: every module once, dependencies first, and a
    tail of exactly the modules that reach a dependency cycle. */
module SortProperties {
  import opened Common
  import opened Names
  import opened Resolver

  // ----- Walks along dependencies -----

  predicate DependsOn(g: Graph, m: Name, d: Name) {
    m in g && d in Deps(g, m)
  }

  /** `w` goes from each module to one of its dependencies. */
  ghost predicate Walk(g: Graph, w: seq<Name>) {
    w != [] && w[0] in g && forall i :: 0 <= i < |w| - 1 ==> DependsOn(g, w[i], w[i + 1])
  }

  /** A walk from `m` comes back to a module it has visited: `m` reaches a cycle. */
  ghost predicate ReachesCycle(g: Graph, m: Name) {
    exists w, i, j :: Walk(g, w) && w[0] == m && 0 <= i < j < |w| && w[i] == w[j]
  }

  // ----- The order is a permutation with dependencies first -----

  lemma OrderIsPermutation(g: Graph)
    ensures NoDup(SortOrder(g)) && Elems(SortOrder(g)) == g.Keys
  {
    NoDupConcat(Placed(g), SortedSet(g.Keys - Elems(Placed(g))));
  }

  /** From a placed module every walk goes strictly back through the order. */
  lemma {:induction false} WalkGoesBack(g: Graph, w: seq<Name>, i: nat, j: nat, at: nat)
    requires Walk(g, w) && i < j < |w|
    requires at < |Placed(g)| && Placed(g)[at] == w[i]
    ensures w[j] in Placed(g)[..at]
    decreases j - i
  {
    var placed := Placed(g);
    assert DependsOn(g, w[i], w[i + 1]);
    assert Deps(g, placed[at]) <= Elems(placed[..at]);
    var at' :| 0 <= at' < at && placed[at'] == w[i + 1];
    if i + 1 < j {
      WalkGoesBack(g, w, i + 1, j, at');
      assert placed[..at'] <= placed[..at];
    }
  }

  /** A module left over has a dependency that is left over, so walks among the
      leftovers can be made as long as one likes. */
  lemma {:induction false} LeftoverWalk(g: Graph, m: Name, n: nat) returns (w: seq<Name>)
    requires m in g.Keys - Elems(Placed(g))
    ensures Walk(g, w) && w[0] == m && |w| == n + 1 && Elems(w) <= g.Keys - Elems(Placed(g))
    decreases n
  {
    if n == 0 {
      w := [m];
    } else {
      assert m !in Ready(g, Elems(Placed(g)));
      var d :| d in Deps(g, m) && d !in Elems(Placed(g));
      var rest := LeftoverWalk(g, d, n - 1);
      w := [m] + rest;
      ElemsConcat([m], rest);
      forall i | 0 <= i < |w| - 1 ensures DependsOn(g, w[i], w[i + 1]) {
        if i > 0 {
          assert w[i] == rest[i - 1] && w[i + 1] == rest[i];
        }
      }
    }
  }

  /** Kahn's algorithm fails to place exactly the modules that reach a cycle. */
  lemma LeftoverIffReachesCycle(g: Graph, m: Name)
    requires m in g
    ensures m !in Elems(Placed(g)) <==> ReachesCycle(g, m)
  {
    var placed := Placed(g);
    if m in Elems(placed) && ReachesCycle(g, m) {
      var w, i, j :| Walk(g, w) && w[0] == m && 0 <= i < j < |w| && w[i] == w[j];
      RepeatImpossible(g, w, i, j);
      assert false;
    }
    if m !in Elems(placed) {
      var left := g.Keys - Elems(placed);
      var w := LeftoverWalk(g, m, |left|);
      Pigeonhole(w, left);
      assert ReachesCycle(g, m);
    }
  }

  lemma RepeatImpossible(g: Graph, w: seq<Name>, i: nat, j: nat)
    requires Walk(g, w) && i < j < |w| && w[i] == w[j]
    ensures w[0] !in Elems(Placed(g))
  {
    var placed := Placed(g);
    if w[0] in placed {
      var at0 :| 0 <= at0 < |placed| && placed[at0] == w[0];
      var at := at0;
      if i > 0 {
        WalkGoesBack(g, w, 0, i, at0);
        at :| 0 <= at < at0 && placed[at] == w[i];
      }
      WalkGoesBack(g, w, i, j, at);
      assert false;
    }
  }

  /** Main result on the order. Its tail is the ascending list of the modules that
      reach a cycle, and each module before the tail comes after its dependencies. */
  lemma SortOrderCharacterised(g: Graph)
    ensures exists k :: 0 <= k <= |SortOrder(g)|
              && SortOrder(g)[k..] == SortedSet(set m | m in g && ReachesCycle(g, m))
              && DependenciesFirst(g, SortOrder(g)[..k])
  {
    var placed, order := Placed(g), SortOrder(g);
    var k := |placed|;
    forall m | m in g ensures m in g.Keys - Elems(placed) <==> ReachesCycle(g, m) {
      LeftoverIffReachesCycle(g, m);
    }
    assert g.Keys - Elems(placed) == set m | m in g && ReachesCycle(g, m);
    assert order[..k] == placed;
    assert order[k..] == SortedSet(g.Keys - Elems(placed));
  }

  /** The same, module by module: one that reaches no cycle follows its dependencies. */
  lemma DependenciesBefore(g: Graph, m: Name, d: Name)
    requires DependsOn(g, m, d) && !ReachesCycle(g, m)
    ensures exists i, j :: 0 <= i < j < |SortOrder(g)| && SortOrder(g)[i] == d && SortOrder(g)[j] == m
  {
    var placed := Placed(g);
    LeftoverIffReachesCycle(g, m);
    var j :| 0 <= j < |placed| && placed[j] == m;
    assert Deps(g, placed[j]) <= Elems(placed[..j]);
    var i :| 0 <= i < j && placed[i] == d;
    assert SortOrder(g)[i] == d && SortOrder(g)[j] == m;
  }

  // ----- Only the sets of in-map dependencies matter -----

  /** The two manifests differ at most in order, in repeats and in dependencies that
      are not being sorted. */
  ghost predicate SameDeps(g: Graph, h: Graph) {
    g.Keys == h.Keys && forall m :: m in g ==> Deps(g, m) == Deps(h, m)
  }

  lemma {:induction false} KahnSameDeps(g: Graph, h: Graph, queue: seq<Name>, done: seq<Name>)
    requires SameDeps(g, h) && KahnState(g, queue, done) && KahnState(h, queue, done)
    ensures Kahn(g, queue, done) == Kahn(h, queue, done)
    decreases |g| - |done|
  {
    if queue != [] {
      KahnStep(g, queue, done);
      KahnStep(h, queue, done);
      NoDupAppend(done, queue[0]);
      DoneAtMost(g, done + [queue[0]]);
      assert Ready(g, Elems(done)) == Ready(h, Elems(done));
      assert Ready(g, Elems(done) + {queue[0]}) == Ready(h, Elems(done) + {queue[0]});
      KahnSameDeps(g, h, queue[1..] + SortedSet(Released(g, Elems(done), queue[0])), done + [queue[0]]);
    }
  }

  /** Repeated, reordered and unknown `depends` entries change nothing. */
  lemma OrderIgnoresDuplicates(g: Graph, h: Graph)
    requires SameDeps(g, h)
    ensures SortOrder(g) == SortOrder(h)
  {
    assert Ready(g, {}) == Ready(h, {});
    assert Elems<Name>([]) == {};
    KahnSameDeps(g, h, SortedSet(Ready(g, {})), []);
  }

  // ----- In which turn the modules are placed -----

  /** The last position of `order` that holds a dependency of `m`; -1 when none does. */
  function LastDep(g: Graph, order: seq<Name>, m: Name): (k: int)
    requires m in g
    ensures -1 <= k < |order|
  {
    if order == [] then -1
    else if order[|order| - 1] in Deps(g, m) then |order| - 1
    else LastDep(g, order[..|order| - 1], m)
  }

  lemma {:induction false} LastDepRight(g: Graph, order: seq<Name>, m: Name)
    requires m in g
    ensures var k := LastDep(g, order, m);
            && (k >= 0 ==> order[k] in Deps(g, m))
            && forall i :: k < i < |order| ==> order[i] !in Deps(g, m)
  {
    if order != [] && order[|order| - 1] !in Deps(g, m) {
      LastDepRight(g, order[..|order| - 1], m);
    }
  }

  /** `a` has its last dependency placed before `b` has, or both have it placed at once and `a`
      comes first in the alphabet. */
  predicate Comes(g: Graph, order: seq<Name>, a: Name, b: Name)
    requires a in g && b in g
  {
    || LastDep(g, order, a) < LastDep(g, order, b)
    || (LastDep(g, order, a) == LastDep(g, order, b) && Le(a, b))
  }

  ghost predicate InTurn(g: Graph, order: seq<Name>, s: seq<Name>) {
    && (forall i :: 0 <= i < |s| ==> s[i] in g)
    && forall i, j :: 0 <= i < j < |s| ==> Comes(g, order, s[i], s[j])
  }

  /** What a module releases has its turn behind all that was placed or waiting. */
  lemma StepInTurn(g: Graph, queue: seq<Name>, done: seq<Name>)
    requires KahnState(g, queue, done) && queue != [] && InTurn(g, done, done + queue)
    ensures var added := SortedSet(Released(g, Elems(done), queue[0]));
            InTurn(g, done + [queue[0]], (done + [queue[0]]) + (queue[1..] + added))
  {
    var node, added := queue[0], SortedSet(Released(g, Elems(done), queue[0]));
    var before, after := done + queue, (done + [node]) + (queue[1..] + added);
    assert after == before + added;
    KahnStep(g, queue, done);
    forall k | 0 <= k < |after|
      ensures after[k] in g
      ensures LastDep(g, done + [node], after[k]) == if k < |before| then LastDep(g, done, after[k]) else |done|
    {
      if k < |before| {
        assert after[k] in Elems(done) + Elems(queue);
      } else {
        assert after[k] in Elems(added);
      }
    }
    forall i, j | 0 <= i < j < |after| ensures Comes(g, done + [node], after[i], after[j]) {
      if j < |before| {
        assert Comes(g, done, before[i], before[j]);
      } else if i >= |before| {
        assert Le(added[i - |before|], added[j - |before|]);
      }
    }
  }

  lemma {:induction false} KahnInTurn(g: Graph, queue: seq<Name>, done: seq<Name>)
    requires KahnState(g, queue, done) && InTurn(g, done, done + queue)
    ensures InTurn(g, Kahn(g, queue, done), Kahn(g, queue, done))
    decreases |g| - |done|
  {
    if queue == [] {
      assert done + queue == done;
    } else {
      KahnStep(g, queue, done);
      DoneAtMost(g, done + [queue[0]]);
      StepInTurn(g, queue, done);
      KahnInTurn(g, queue[1..] + SortedSet(Released(g, Elems(done), queue[0])), done + [queue[0]]);
    }
  }

  /** Main result on the turns, which leaves one order only. Of two modules placed, the one
      whose last dependency is placed earlier comes first; those released by one module, and
      those without dependencies, come in alphabetical order. */
  lemma PlacedInTurn(g: Graph)
    ensures InTurn(g, Placed(g), Placed(g))
  {
    var start := SortedSet(Ready(g, {}));
    assert Elems<Name>([]) == {};
    assert [] + start == start;
    StartInTurn(g, start);
    KahnInTurn(g, start, []);
  }

  lemma StartInTurn(g: Graph, start: seq<Name>)
    requires Elems(start) <= g.Keys && Ascending(start)
    ensures InTurn(g, [], start)
  {
    forall i | 0 <= i < |start| ensures start[i] in g && LastDep(g, [], start[i]) == -1 {
      assert start[i] in Elems(start);
    }
  }

  // ----- The turns follow the depth of the dependencies -----

  /** The longest walks from `m` take `depth` steps. */
  ghost predicate DepthIs(g: Graph, m: Name, depth: nat) {
    && (exists w :: Walk(g, w) && w[0] == m && |w| == depth + 1)
    && forall w :: Walk(g, w) && w[0] == m ==> |w| <= depth + 1
  }

  /** Depths of the modules placed first, which ascend; each module lies one deeper than its
      last dependency. */
  ghost predicate Deepening(g: Graph, depths: seq<nat>) {
    && |depths| <= |Placed(g)|
    && (forall i :: 0 <= i < |depths| ==> OneDeeper(g, depths, i))
    && forall i, j :: 0 <= i < j < |depths| ==> depths[i] <= depths[j]
  }

  ghost predicate OneDeeper(g: Graph, depths: seq<nat>, i: nat) {
    && i < |depths| && i < |Placed(g)| && Placed(g)[i] in g
    && var k := LastDep(g, Placed(g), Placed(g)[i]);
       k < i && depths[i] == if k < 0 then 0 else depths[k] + 1
  }

  lemma {:induction false} DepthsExist(g: Graph, n: nat) returns (depths: seq<nat>)
    requires n <= |Placed(g)|
    ensures |depths| == n && Deepening(g, depths)
  {
    if n == 0 {
      depths := [];
    } else {
      var front := DepthsExist(g, n - 1);
      var i := n - 1;
      PlacedInTurn(g);
      LastDepEarlier(g, i);
      var k := LastDep(g, Placed(g), Placed(g)[i]);
      var next := if k < 0 then 0 else front[k] + 1;
      DepthAscends(g, front, i);
      AllDeeper(g, front, next);
      depths := front + [next];
    }
  }

  lemma AllDeeper(g: Graph, depths: seq<nat>, next: nat)
    requires forall j :: 0 <= j < |depths| ==> OneDeeper(g, depths, j)
    ensures forall j :: 0 <= j < |depths| ==> OneDeeper(g, depths + [next], j)
  {
    forall j | 0 <= j < |depths| ensures OneDeeper(g, depths + [next], j) {
      DeeperKept(g, depths, next, j);
    }
  }

  lemma DeeperKept(g: Graph, depths: seq<nat>, next: nat, i: nat)
    requires OneDeeper(g, depths, i)
    ensures OneDeeper(g, depths + [next], i)
  {
  }

  lemma DepthAscends(g: Graph, depths: seq<nat>, i: nat)
    requires i == |depths| < |Placed(g)| && Placed(g)[i] in g && Deepening(g, depths)
    requires InTurn(g, Placed(g), Placed(g)) && LastDep(g, Placed(g), Placed(g)[i]) < i
    ensures var k := LastDep(g, Placed(g), Placed(g)[i]);
            forall j :: 0 <= j < i ==> depths[j] <= if k < 0 then 0 else depths[k] + 1
  {
    var placed := Placed(g);
    var k := LastDep(g, placed, placed[i]);
    forall j | 0 <= j < i ensures depths[j] <= if k < 0 then 0 else depths[k] + 1 {
      assert OneDeeper(g, depths, j) && Comes(g, placed, placed[j], placed[i]);
      var l := LastDep(g, placed, placed[j]);
      if 0 <= l < k { assert depths[l] <= depths[k]; }
    }
  }

  lemma LastDepEarlier(g: Graph, i: nat)
    requires i < |Placed(g)| && Placed(g)[i] in g
    ensures LastDep(g, Placed(g), Placed(g)[i]) < i
  {
    var placed := Placed(g);
    var k := LastDep(g, placed, placed[i]);
    LastDepRight(g, placed, placed[i]);
    if k >= i {
      assert Deps(g, placed[i]) <= Elems(placed[..i]);
      var j :| 0 <= j < i && placed[..i][j] == placed[k];
      NoDupIndices(placed);
      assert false;
    }
  }

  /** The depths are the lengths of the longest walks. */
  lemma {:induction false} DepthRight(g: Graph, depths: seq<nat>, i: nat)
    requires Deepening(g, depths) && i < |depths|
    ensures DepthIs(g, Placed(g)[i], depths[i])
    decreases i
  {
    var placed, m := Placed(g), Placed(g)[i];
    assert OneDeeper(g, depths, i);
    var k := LastDep(g, placed, m);
    if k < 0 {
      assert Walk(g, [m]);
    } else {
      DepthRight(g, depths, k);
      LastDepRight(g, placed, m);
      var tail :| Walk(g, tail) && tail[0] == placed[k] && |tail| == depths[k] + 1;
      WalkPrepended(g, m, tail);
    }
    forall w | Walk(g, w) && w[0] == m && |w| > 1 ensures |w| <= depths[i] + 1 {
      var a := SecondPlaced(g, w, i);
      DepthRight(g, depths, a);
      WalkRest(g, w);
    }
  }

  /** The second module of a walk is placed no later than the last dependency of the first. */
  lemma SecondPlaced(g: Graph, w: seq<Name>, i: nat) returns (a: nat)
    requires Walk(g, w) && |w| > 1 && i < |Placed(g)| && Placed(g)[i] == w[0]
    ensures a < i && Placed(g)[a] == w[1] && a <= LastDep(g, Placed(g), w[0])
  {
    var placed := Placed(g);
    WalkGoesBack(g, w, 0, 1, i);
    a :| 0 <= a < i && placed[..i][a] == w[1];
    assert DependsOn(g, w[0], w[1]);
    LastDepRight(g, placed, w[0]);
  }

  /** Main result on depth. Modules are placed by the depth of their dependencies: the longest
      walk from one placed earlier is no longer than from one placed later. */
  lemma PlacedByDepth(g: Graph) returns (depths: seq<nat>)
    ensures |depths| == |Placed(g)|
    ensures forall i :: 0 <= i < |depths| ==> DepthIs(g, Placed(g)[i], depths[i])
    ensures forall i, j :: 0 <= i < j < |depths| ==> depths[i] <= depths[j]
  {
    depths := DepthsExist(g, |Placed(g)|);
    forall i | 0 <= i < |depths| ensures DepthIs(g, Placed(g)[i], depths[i]) {
      DepthRight(g, depths, i);
    }
  }

  lemma WalkPrepended(g: Graph, m: Name, tail: seq<Name>)
    requires Walk(g, tail) && DependsOn(g, m, tail[0])
    ensures Walk(g, [m] + tail) && ([m] + tail)[0] == m
  {
    var w := [m] + tail;
    forall i | 0 <= i < |w| - 1 ensures DependsOn(g, w[i], w[i + 1]) {
      if i > 0 { assert w[i] == tail[i - 1] && w[i + 1] == tail[i]; }
    }
  }

  lemma WalkRest(g: Graph, w: seq<Name>)
    requires Walk(g, w) && |w| > 1
    ensures Walk(g, w[1..]) && w[1..][0] == w[1]
  {
    var r := w[1..];
    assert DependsOn(g, w[0], w[1]);
    forall i | 0 <= i < |r| - 1 ensures DependsOn(g, r[i], r[i + 1]) {
      assert DependsOn(g, w[i + 1], w[i + 2]);
    }
  }
}
