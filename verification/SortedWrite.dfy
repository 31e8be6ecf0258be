/** The indexing loop writes modules in the order of the dependency sort
    (`src/indexer/pipeline.py`), which is what spares parents a placeholder. */
module SortedWrite {
  import opened Common
  import opened Names
  import opened Resolver
  import opened SortProperties
  import opened GraphWriter

  type Parsed = map<Name, ParseResult>

  /** The parse results handed to the writer, in sorted order. */
  ghost function Results(parsed: Parsed, order: seq<Name>): seq<ParseResult>
    requires Elems(order) <= parsed.Keys
  {
    if order == [] then []
    else
      var front := order[..|order| - 1];
      SplitLast(order);
      assert order[|order| - 1] in Elems(order);
      Results(parsed, front) + [parsed[order[|order| - 1]]]
  }

  /** Each module was parsed, its models carry its own name and the one version of the
      sort, and none has the reserved name. */
  ghost predicate ParsedModules(g: Graph, parsed: Parsed, version: Name) {
    && parsed.Keys == g.Keys && UNRESOLVED !in g
    && forall n, m :: n in parsed && m in parsed[n].models ==> m.key.mod == n && m.key.version == version
  }

  ghost predicate DefinesModel(parsed: Parsed, n: Name, parent: Name) {
    n in parsed && exists m :: m in parsed[n].models && m.key.name == parent
  }

  /** `d` is a direct or indirect dependency of `n`, within the sort. */
  ghost predicate Upstream(g: Graph, n: Name, d: Name) {
    exists w :: Walk(g, w) && |w| > 1 && w[0] == n && w[|w| - 1] == d
  }

  /** A parent the model names, other than the name it extends. */
  predicate NamesParent(m: ModelInfo, parent: Name) {
    (parent in m.inherit && parent != m.key.name) || (exists i :: 0 <= i < |m.inherits| && m.inherits[i].0 == parent)
  }

  /** Every parent a model of `n` names is defined upstream, or by the model itself or an
      earlier model of `n`. */
  ghost predicate ParentsUpstream(g: Graph, parsed: Parsed, n: Name)
    requires n in parsed
  {
    forall x, parent :: 0 <= x < |parsed[n].models| && NamesParent(parsed[n].models[x], parent) ==>
      || (exists d :: Upstream(g, n, d) && DefinesModel(parsed, d, parent))
      || (exists y :: 0 <= y <= x && parsed[n].models[y].key.name == parent)
  }

  // ----- Links of one module -----

  lemma {:induction false} ResultLinks(models: seq<ModelInfo>, s: Statement)
    ensures s in ResultStatements(models) <==> exists m :: m in models && s in ModelStatements(m)
  {
    if models != [] {
      var front, last := models[..|models| - 1], models[|models| - 1];
      ResultLinks(front, s);
      assert models == front + [last];
    }
  }

  /** A run leaves no link missing when each part of it does. */
  lemma MissingConcat(resolved: set<ModelKey>, a: seq<Statement>, b: seq<Statement>)
    requires Missing(resolved, a) == {}
    requires forall s :: s in b ==> MissingBy(resolved + Merged(a) + Merged(b[..1]), s) == {}
    requires b != [] && b[0].MergeModel?
    ensures Missing(resolved, a + b) == {}
  {
    var ss := a + b;
    forall i | 0 <= i < |ss| ensures MissingBy(resolved + Merged(ss[..i]), ss[i]) == {} {
      if i < |a| {
        assert ss[..i] == a[..i] && ss[i] == a[i];
        assert forall e :: e in MissingBy(resolved + Merged(a[..i]), a[i]) ==> e in Missing(resolved, a);
      } else if i > |a| {
        assert ss[..i] == a + b[..i - |a|];
        assert b[..i - |a|] == b[..1] + b[1..i - |a|];
        assert ss[i] == b[i - |a|];
        MissingMonotone(resolved + Merged(a) + Merged(b[..1]), resolved + Merged(ss[..i]), ss[i]);
      }
    }
  }

  lemma MissingMonotone(small: set<ModelKey>, large: set<ModelKey>, s: Statement)
    requires small <= large && MissingBy(small, s) == {}
    ensures MissingBy(large, s) == {}
  {
  }

  lemma {:induction false} MergedModels(models: seq<ModelInfo>, m: ModelInfo)
    requires m in models
    ensures m.key in Merged(ResultStatements(models))
  {
    assert MergeModel(m.key) == ModelStatements(m)[0];
    assert MergeModel(m.key) in ModelStatements(m);
    ResultLinks(models, MergeModel(m.key));
  }

  /** When every parent named is resolved already or defined by this or an earlier model,
      the models are written without a missing link. */
  lemma {:induction false} ModelsMissNothing(resolved: set<ModelKey>, models: seq<ModelInfo>, version: Name)
    requires forall m :: m in models ==> m.key.version == version
    requires forall x, parent :: 0 <= x < |models| && NamesParent(models[x], parent) ==>
               || Defines(resolved, parent, version)
               || (exists y :: 0 <= y <= x && models[y].key.name == parent)
    ensures Missing(resolved, ResultStatements(models)) == {}
  {
    if models != [] {
      var x := |models| - 1;
      var front, last := models[..x], models[x];
      assert forall m :: m in front ==> m in models;
      ModelsMissNothing(resolved, front, version);
      var a, b := ResultStatements(front), ModelStatements(last);
      assert b[..1] == [MergeModel(last.key)] && MergeModel(last.key) in b[..1];
      forall s | s in b ensures MissingBy(resolved + Merged(a) + Merged(b[..1]), s) == {} {
        if s.Link? && !Defines(resolved, s.parent, version) {
          var y :| 0 <= y <= x && models[y].key.name == s.parent;
          if y < x {
            assert models[y] in front;
            MergedModels(front, models[y]);
          }
          assert models[y].key in resolved + Merged(a) + Merged(b[..1]);
          assert models[y] in models;
        } else if s.Link? {
          var k :| k in resolved && k.name == s.parent && k.version == version;
          assert k in resolved + Merged(a) + Merged(b[..1]);
        }
      }
      MissingConcat(resolved, a, b);
    }
  }

  // ----- The whole write -----

  lemma {:induction false} WrittenBefore(parsed: Parsed, order: seq<Name>, d: Name, m: ModelInfo)
    requires Elems(order) <= parsed.Keys && d in order && m in parsed[d].models
    ensures m.key in Merged(AllStatements(Results(parsed, order)))
  {
    var front, last := order[..|order| - 1], order[|order| - 1];
    SplitLast(order);
    var rs := Results(parsed, order);
    assert rs[..|rs| - 1] == Results(parsed, front);
    if d == last {
      MergedModels(parsed[d].models, m);
    } else {
      WrittenBefore(parsed, front, d, m);
    }
  }

  lemma {:induction false} WriteIsReal(g: Graph, parsed: Parsed, order: seq<Name>, version: Name)
    requires ParsedModules(g, parsed, version) && Elems(order) <= parsed.Keys
    ensures RealModules(AllStatements(Results(parsed, order)))
  {
    if order != [] {
      var front, last := order[..|order| - 1], order[|order| - 1];
      SplitLast(order);
      var rs := Results(parsed, order);
      assert rs[..|rs| - 1] == Results(parsed, front);
      WriteIsReal(g, parsed, front, version);
      assert last in Elems(order);
      ModuleIsReal(g, parsed, last, version);
    }
  }

  lemma ModuleIsReal(g: Graph, parsed: Parsed, n: Name, version: Name)
    requires ParsedModules(g, parsed, version) && n in parsed
    ensures RealModules(ResultStatements(parsed[n].models))
  {
    forall s | s in ResultStatements(parsed[n].models) ensures s.key.mod != UNRESOLVED {
      ResultLinks(parsed[n].models, s);
      var m :| m in parsed[n].models && s in ModelStatements(m);
    }
  }

  /** What was written before the turn of the module at position `at`. */
  ghost function ResultsBefore(g: Graph, parsed: Parsed, at: nat): seq<ParseResult>
    requires g.Keys == parsed.Keys && at < |SortOrder(g)|
    ensures Elems(SortOrder(g)[..at]) <= parsed.Keys
    ensures ResultsBefore(g, parsed, at) == Results(parsed, SortOrder(g)[..at])
  {
    OrderIsPermutation(g);
    assert forall x :: x in SortOrder(g)[..at] ==> x in Elems(SortOrder(g));
    Results(parsed, SortOrder(g)[..at])
  }

  /** Main result. A module that reaches no dependency cycle and whose parents are all
      defined upstream is written, at its turn in the sorted order and whatever the graph
      held at first, without one placeholder node or edge appearing. */
  lemma NoPlaceholderParents(g: Graph, parsed: Parsed, version: Name, start: Store, profiles: seq<Name>,
                             n: Name, at: nat)
    requires ParsedModules(g, parsed, version) && WellFormed(start)
    requires n in g && !ReachesCycle(g, n) && ParentsUpstream(g, parsed, n)
    requires at < |SortOrder(g)| && SortOrder(g)[at] == n
    ensures var before := Exec(start, AllStatements(ResultsBefore(g, parsed, at)), profiles);
            var after := Exec(before, ResultStatements(parsed[n].models), profiles);
            && Placeholders(after) == Placeholders(before)
            && UnresolvedEdges(after) == UnresolvedEdges(before)
  {
    var earlier := AllStatements(ResultsBefore(g, parsed, at));
    var before := Exec(start, earlier, profiles);
    var models := parsed[n].models;
    OrderIsPermutation(g);
    WriteIsReal(g, parsed, SortOrder(g)[..at], version);
    WriteCharacterised(start, earlier, profiles);
    ParentsDefined(g, parsed, version, n, at, Resolved(before));
    ModelsMissNothing(Resolved(before), models, version);
    ModuleIsReal(g, parsed, n, version);
    WriteCharacterised(before, ResultStatements(models), profiles);
  }

  lemma ParentsDefined(g: Graph, parsed: Parsed, version: Name, n: Name, at: nat, resolved: set<ModelKey>)
    requires ParsedModules(g, parsed, version)
    requires n in g && !ReachesCycle(g, n) && ParentsUpstream(g, parsed, n)
    requires at < |SortOrder(g)| && SortOrder(g)[at] == n
    requires Merged(AllStatements(ResultsBefore(g, parsed, at))) <= resolved
    ensures forall x, parent :: 0 <= x < |parsed[n].models| && NamesParent(parsed[n].models[x], parent) ==>
              || Defines(resolved, parent, version)
              || (exists y :: 0 <= y <= x && parsed[n].models[y].key.name == parent)
  {
    var models := parsed[n].models;
    OrderIsPermutation(g);
    forall x, parent | 0 <= x < |models| && NamesParent(models[x], parent)
                       && !(exists y :: 0 <= y <= x && models[y].key.name == parent)
      ensures Defines(resolved, parent, version)
    {
      var d :| Upstream(g, n, d) && DefinesModel(parsed, d, parent);
      UpstreamIsEarlier(g, at, d);
      var m :| m in parsed[d].models && m.key.name == parent;
      WrittenBefore(parsed, SortOrder(g)[..at], d, m);
      assert m.key in resolved;
    }
  }

  lemma UpstreamIsEarlier(g: Graph, at: nat, d: Name)
    requires at < |SortOrder(g)| && SortOrder(g)[at] in g && !ReachesCycle(g, SortOrder(g)[at])
    requires Upstream(g, SortOrder(g)[at], d)
    ensures d in SortOrder(g)[..at]
  {
    var placed, n := Placed(g), SortOrder(g)[at];
    LeftoverIffReachesCycle(g, n);
    OrderIsPermutation(g);
    NoDupIndices(SortOrder(g));
    var k :| 0 <= k < |placed| && placed[k] == n;
    assert SortOrder(g)[k] == n;
    var w :| Walk(g, w) && |w| > 1 && w[0] == n && w[|w| - 1] == d;
    WalkGoesBack(g, w, 0, |w| - 1, at);
    assert SortOrder(g)[..at] == placed[..at];
  }
}
