/** The part of the graph writer that decides on placeholder parents
    (`src/indexer/writer_neo4j.py`): Model nodes, INHERITS and DELEGATES_TO edges. */
module GraphWriter {
  import opened Common
  import opened Names

  datatype ModelKey = ModelKey(name: Name, mod: Name, version: Name)

  datatype ModelNode = ModelNode(unresolved: bool, profile: seq<Name>)

  datatype Kind = Inherits | DelegatesTo(viaField: Name)

  datatype Edge = Edge(from: ModelKey, to: ModelKey, kind: Kind, unresolved: bool)

  datatype Store = Store(nodes: map<ModelKey, ModelNode>, edges: set<Edge>)

  const UNRESOLVED: Name := Name("__unresolved__")

  datatype ModelInfo = ModelInfo(key: ModelKey, inherit: seq<Name>, inherits: seq<(Name, Name)>)

  datatype ParseResult = ParseResult(mod: Name, models: seq<ModelInfo>)

  // ----- The statements one transaction runs -----

  datatype Statement =
    | MergeModel(key: ModelKey)
    | SelfExtend(key: ModelKey)
    | Link(key: ModelKey, kind: Kind, parent: Name)

  /** The profile list a write leaves: earlier names not written again, then the new ones. */
  function MergeProfile(prior: seq<Name>, profiles: seq<Name>): seq<Name> {
    if prior == [] then profiles
    else if prior[0] in profiles then MergeProfile(prior[1..], profiles)
    else [prior[0]] + MergeProfile(prior[1..], profiles)
  }

  /** MERGE of a Model node; a matched node keeps its `unresolved` flag. */
  function MergeNode(nodes: map<ModelKey, ModelNode>, key: ModelKey, unresolved: bool, profiles: seq<Name>)
    : map<ModelKey, ModelNode>
  {
    if key in nodes then nodes[key := nodes[key].(profile := MergeProfile(nodes[key].profile, profiles))]
    else nodes[key := ModelNode(unresolved, profiles)]
  }

  /** MERGE of an edge to each target: an edge already there, flagged or not, matches. */
  function MergeEdges(edges: set<Edge>, from: ModelKey, targets: set<ModelKey>, kind: Kind): set<Edge> {
    edges + set to | to in targets && Edge(from, to, kind, true) !in edges :: Edge(from, to, kind, false)
  }

  /** The nodes a parent name resolves to. */
  function Parents(nodes: map<ModelKey, ModelNode>, parent: Name, version: Name): set<ModelKey> {
    set k | k in nodes && k.name == parent && k.version == version && !nodes[k].unresolved
  }

  function Run(g: Store, s: Statement, profiles: seq<Name>): Store {
    match s
    case MergeModel(key) => g.(nodes := MergeNode(g.nodes, key, false, profiles))
    case SelfExtend(key) =>
      var tips := set k | k in g.nodes && k.name == key.name && k.version == key.version && k.mod != key.mod;
      g.(edges := MergeEdges(g.edges, key, tips, Inherits))
    case Link(key, kind, parent) =>
      var parents := Parents(g.nodes, parent, key.version);
      if parents != {} then g.(edges := MergeEdges(g.edges, key, parents, kind))
      else
        var placeholder := ModelKey(parent, UNRESOLVED, key.version);
        Store(MergeNode(g.nodes, placeholder, true, profiles), g.edges + {Edge(key, placeholder, kind, true)})
  }

  function Exec(g: Store, ss: seq<Statement>, profiles: seq<Name>): Store {
    if ss == [] then g
    else Run(Exec(g, ss[..|ss| - 1], profiles), ss[|ss| - 1], profiles)
  }

  lemma {:induction false} ExecConcat(g: Store, a: seq<Statement>, b: seq<Statement>, profiles: seq<Name>)
    ensures Exec(g, a + b, profiles) == Exec(Exec(g, a, profiles), b, profiles)
  {
    if b == [] {
      assert a + b == a;
    } else {
      assert (a + b)[..|a + b| - 1] == a + b[..|b| - 1];
      ExecConcat(g, a, b[..|b| - 1], profiles);
    }
  }

  // ----- What a parse result makes the writer run -----

  function InheritStatements(key: ModelKey, inherit: seq<Name>): seq<Statement> {
    seq(|inherit|, i requires 0 <= i < |inherit| =>
      if inherit[i] == key.name then SelfExtend(key) else Link(key, Inherits, inherit[i]))
  }

  function DelegateStatements(key: ModelKey, inherits: seq<(Name, Name)>): seq<Statement> {
    seq(|inherits|, i requires 0 <= i < |inherits| => Link(key, DelegatesTo(inherits[i].1), inherits[i].0))
  }

  function ModelStatements(m: ModelInfo): seq<Statement> {
    [MergeModel(m.key)] + InheritStatements(m.key, m.inherit) + DelegateStatements(m.key, m.inherits)
  }

  function ResultStatements(models: seq<ModelInfo>): seq<Statement> {
    if models == [] then []
    else ResultStatements(models[..|models| - 1]) + ModelStatements(models[|models| - 1])
  }

  function AllStatements(results: seq<ParseResult>): seq<Statement> {
    if results == [] then []
    else AllStatements(results[..|results| - 1]) + ResultStatements(results[|results| - 1].models)
  }

  class Neo4jWriter {
    var store: Store

    constructor (store: Store)
      ensures this.store == store
    {
      this.store := store;
    }

    method RunStatement(s: Statement, profiles: seq<Name>)
      modifies this
      ensures store == Run(old(store), s, profiles)
    {
      store := Run(store, s, profiles);
    }

    /** `_write_parse_result`. */
    method WriteParseResult(result: ParseResult, profiles: seq<Name>)
      modifies this
      ensures store == Exec(old(store), ResultStatements(result.models), profiles)
    {
      for m := 0 to |result.models|
        invariant store == Exec(old(store), ResultStatements(result.models[..m]), profiles)
      {
        WriteModel(result.models[m], profiles);
        ExecConcat(old(store), ResultStatements(result.models[..m]), ModelStatements(result.models[m]), profiles);
        assert result.models[..m + 1][..m] == result.models[..m];
      }
      assert result.models[..|result.models|] == result.models;
    }

    /** One round of its loop: the model, then the parents it inherits from and delegates to. */
    method WriteModel(model: ModelInfo, profiles: seq<Name>)
      modifies this
      ensures store == Exec(old(store), ModelStatements(model), profiles)
    {
      ghost var ss := InheritStatements(model.key, model.inherit);
      ghost var ds := DelegateStatements(model.key, model.inherits);
      RunStatement(MergeModel(model.key), profiles);
      assert [MergeModel(model.key)][..0] == [];
      assert store == Exec(old(store), [MergeModel(model.key)], profiles);
      WriteInherits(model, profiles);
      ExecConcat(old(store), [MergeModel(model.key)], ss, profiles);
      WriteDelegates(model, profiles);
      ExecConcat(old(store), [MergeModel(model.key)] + ss, ds, profiles);
    }

    method WriteInherits(model: ModelInfo, profiles: seq<Name>)
      modifies this
      ensures store == Exec(old(store), InheritStatements(model.key, model.inherit), profiles)
    {
      ghost var ss := InheritStatements(model.key, model.inherit);
      for i := 0 to |model.inherit|
        invariant store == Exec(old(store), ss[..i], profiles)
      {
        assert ss[..i + 1][..i] == ss[..i] && ss[..i + 1][i] == ss[i];
        if model.inherit[i] == model.key.name {
          RunStatement(SelfExtend(model.key), profiles);
        } else {
          RunStatement(Link(model.key, Inherits, model.inherit[i]), profiles);
        }
      }
      assert ss[..|ss|] == ss;
    }

    method WriteDelegates(model: ModelInfo, profiles: seq<Name>)
      modifies this
      ensures store == Exec(old(store), DelegateStatements(model.key, model.inherits), profiles)
    {
      ghost var ds := DelegateStatements(model.key, model.inherits);
      for i := 0 to |model.inherits|
        invariant store == Exec(old(store), ds[..i], profiles)
      {
        assert ds[..i + 1][..i] == ds[..i] && ds[..i + 1][i] == ds[i];
        RunStatement(Link(model.key, DelegatesTo(model.inherits[i].1), model.inherits[i].0), profiles);
      }
      assert ds[..|ds|] == ds;
    }

    /** `write_results`: one transaction per module. */
    method WriteResults(results: seq<ParseResult>, profiles: seq<Name>)
      modifies this
      ensures store == Exec(old(store), AllStatements(results), profiles)
    {
      for i := 0 to |results|
        invariant store == Exec(old(store), AllStatements(results[..i]), profiles)
      {
        ExecConcat(old(store), AllStatements(results[..i]), ResultStatements(results[i].models), profiles);
        WriteParseResult(results[i], profiles);
        assert results[..i + 1][..i] == results[..i];
      }
      assert results[..|results|] == results;
    }
  }

  // ----- Which nodes are resolved -----

  /** Placeholders, and only they, live in the module `__unresolved__`. */
  ghost predicate WellFormed(g: Store) {
    forall k :: k in g.nodes ==> (g.nodes[k].unresolved <==> k.mod == UNRESOLVED)
  }

  function Resolved(g: Store): set<ModelKey> {
    set k | k in g.nodes && !g.nodes[k].unresolved
  }

  function Placeholders(g: Store): set<ModelKey> {
    set k | k in g.nodes && g.nodes[k].unresolved
  }

  function UnresolvedEdges(g: Store): set<Edge> {
    set e | e in g.edges && e.unresolved
  }

  function Merged(ss: seq<Statement>): set<ModelKey> {
    set s | s in ss && s.MergeModel? :: s.key
  }

  /** No real module is called `__unresolved__`. */
  ghost predicate RealModules(ss: seq<Statement>) {
    forall s :: s in ss ==> s.key.mod != UNRESOLVED
  }

  ghost predicate Defines(keys: set<ModelKey>, name: Name, version: Name) {
    exists k :: k in keys && k.name == name && k.version == version
  }

  /** The placeholder edge a statement adds when these nodes are resolved: a link that
      finds no parent adds one. */
  ghost function MissingBy(resolved: set<ModelKey>, s: Statement): set<Edge> {
    if s.Link? && !Defines(resolved, s.parent, s.key.version)
    then {Edge(s.key, ModelKey(s.parent, UNRESOLVED, s.key.version), s.kind, true)}
    else {}
  }

  /** The placeholder edges of a run, each link seeing what was merged before it. */
  ghost function Missing(resolved: set<ModelKey>, ss: seq<Statement>): set<Edge> {
    set i, e | 0 <= i < |ss| && e in MissingBy(resolved + Merged(ss[..i]), ss[i]) :: e
  }

  function Targets(edges: set<Edge>): set<ModelKey> {
    set e | e in edges :: e.to
  }

  /** Main result on writing. The resolved nodes are those of before and the models
      merged; a placeholder edge appears for exactly the links whose parent is neither
      resolved before nor merged by an earlier statement, and the placeholder nodes are
      those of before and the ends of these edges. */
  lemma {:induction false} WriteCharacterised(g: Store, ss: seq<Statement>, profiles: seq<Name>)
    requires WellFormed(g) && RealModules(ss)
    ensures WellFormed(Exec(g, ss, profiles))
    ensures Resolved(Exec(g, ss, profiles)) == Resolved(g) + Merged(ss)
    ensures UnresolvedEdges(Exec(g, ss, profiles)) == UnresolvedEdges(g) + Missing(Resolved(g), ss)
    ensures Placeholders(Exec(g, ss, profiles)) == Placeholders(g) + Targets(Missing(Resolved(g), ss))
  {
    if ss != [] {
      var front, s := ss[..|ss| - 1], ss[|ss| - 1];
      assert s in ss && forall x :: x in front ==> x in ss;
      WriteCharacterised(g, front, profiles);
      MergedSplit(ss);
      MissingSplit(Resolved(g), ss);
      StatementEffect(Exec(g, front, profiles), s, profiles);
    }
  }

  lemma MergedSplit(ss: seq<Statement>)
    requires ss != []
    ensures Merged(ss) == Merged(ss[..|ss| - 1]) + (if ss[|ss| - 1].MergeModel? then {ss[|ss| - 1].key} else {})
  {
  }

  lemma MissingSplit(resolved: set<ModelKey>, ss: seq<Statement>)
    requires ss != []
    ensures var front, s := ss[..|ss| - 1], ss[|ss| - 1];
            Missing(resolved, ss) == Missing(resolved, front) + MissingBy(resolved + Merged(front), s)
  {
    var front := ss[..|ss| - 1];
    assert forall i :: 0 <= i < |front| ==> front[..i] == ss[..i] && front[i] == ss[i];
  }

  lemma StatementEffect(g: Store, s: Statement, profiles: seq<Name>)
    requires WellFormed(g) && s.key.mod != UNRESOLVED
    ensures WellFormed(Run(g, s, profiles))
    ensures Resolved(Run(g, s, profiles)) == Resolved(g) + if s.MergeModel? then {s.key} else {}
    ensures UnresolvedEdges(Run(g, s, profiles)) == UnresolvedEdges(g) + MissingBy(Resolved(g), s)
    ensures Placeholders(Run(g, s, profiles)) == Placeholders(g) + Targets(MissingBy(Resolved(g), s))
  {
  }

  // ----- Which edges a run adds besides -----

  function RealEdges(g: Store): set<Edge> {
    set e | e in g.edges && !e.unresolved
  }

  /** The nodes a statement links its model to: every resolved node of the parent's name and
      version, or, for a model that extends its own name, every other module's node of it. */
  ghost function Linked(resolved: set<ModelKey>, placeholders: set<ModelKey>, s: Statement): set<ModelKey> {
    match s
    case MergeModel(_) => {}
    case SelfExtend(key) =>
      set k | k in resolved + placeholders && k.name == key.name && k.version == key.version && k.mod != key.mod
    case Link(key, _, parent) => set k | k in resolved && k.name == parent && k.version == key.version
  }

  function KindOf(s: Statement): Kind {
    if s.Link? then s.kind else Inherits
  }

  /** The edges to them, but where a placeholder edge already matches. */
  ghost function EdgesBy(resolved: set<ModelKey>, placeholders: set<ModelKey>, flagged: set<Edge>, s: Statement)
    : set<Edge>
  {
    set k | k in Linked(resolved, placeholders, s) && Edge(s.key, k, KindOf(s), true) !in flagged
      :: Edge(s.key, k, KindOf(s), false)
  }

  /** The edges of a run, each statement seeing what the ones before it left. */
  ghost function NewEdges(g: Store, ss: seq<Statement>): set<Edge> {
    set i, e | 0 <= i < |ss| && e in NewEdgesAt(g, ss[..i], ss[i]) :: e
  }

  ghost function NewEdgesAt(g: Store, front: seq<Statement>, s: Statement): set<Edge> {
    var missing := Missing(Resolved(g), front);
    EdgesBy(Resolved(g) + Merged(front), Placeholders(g) + Targets(missing), UnresolvedEdges(g) + missing, s)
  }

  /** Main result on links. Apart from placeholder edges, the edges are those of before and one
      from each linking model to every node its statement finds. */
  lemma {:induction false} LinksCharacterised(g: Store, ss: seq<Statement>, profiles: seq<Name>)
    requires WellFormed(g) && RealModules(ss)
    ensures RealEdges(Exec(g, ss, profiles)) == RealEdges(g) + NewEdges(g, ss)
  {
    if ss != [] {
      var front, s := ss[..|ss| - 1], ss[|ss| - 1];
      assert s in ss && forall x :: x in front ==> x in ss;
      LinksCharacterised(g, front, profiles);
      WriteCharacterised(g, front, profiles);
      LinkEffect(Exec(g, front, profiles), s, profiles);
      NewEdgesSplit(g, ss);
    }
  }

  lemma NewEdgesSplit(g: Store, ss: seq<Statement>)
    requires ss != []
    ensures NewEdges(g, ss) == NewEdges(g, ss[..|ss| - 1]) + NewEdgesAt(g, ss[..|ss| - 1], ss[|ss| - 1])
  {
    var front := ss[..|ss| - 1];
    assert forall i :: 0 <= i < |front| ==> front[..i] == ss[..i] && front[i] == ss[i];
  }

  lemma LinkEffect(g: Store, s: Statement, profiles: seq<Name>)
    requires WellFormed(g) && s.key.mod != UNRESOLVED
    ensures RealEdges(Run(g, s, profiles)) ==
              RealEdges(g) + EdgesBy(Resolved(g), Placeholders(g), UnresolvedEdges(g), s)
  {
    var linked := Linked(Resolved(g), Placeholders(g), s);
    if s.SelfExtend? {
      assert linked == OthersOf(g, s.key);
    } else if s.Link? {
      assert linked == Parents(g.nodes, s.parent, s.key.version);
    }
    forall e ensures e in RealEdges(Run(g, s, profiles)) <==>
                       e in RealEdges(g) || e in EdgesBy(Resolved(g), Placeholders(g), UnresolvedEdges(g), s) {
      if e in EdgesBy(Resolved(g), Placeholders(g), UnresolvedEdges(g), s) {
        assert e.to in linked && Edge(s.key, e.to, KindOf(s), true) !in g.edges;
      }
    }
  }

  // ----- The same for the models of a module -----

  /** `to` is linked from `from`, by an edge flagged or not. */
  predicate HasEdge(g: Store, from: ModelKey, to: ModelKey, kind: Kind) {
    Edge(from, to, kind, false) in g.edges || Edge(from, to, kind, true) in g.edges
  }

  /** Some node of that name is linked from `from`. */
  ghost predicate HasParent(g: Store, from: ModelKey, kind: Kind, parent: Name) {
    exists k: ModelKey :: k.name == parent && k.version == from.version && HasEdge(g, from, k, kind)
  }

  /** What a statement run between `g` and `end` has to have done. */
  ghost predicate Done(g: Store, end: Store, s: Statement) {
    match s
    case MergeModel(key) => key in end.nodes
    case SelfExtend(key) => forall k :: k in OthersOf(g, key) ==> HasEdge(end, key, k, Inherits)
    case Link(key, kind, parent) =>
      && (forall k :: k in Parents(g.nodes, parent, key.version) ==> HasEdge(end, key, k, kind))
      && HasParent(end, key, kind, parent)
  }

  /** The nodes of a model's own name and version in other modules. */
  function OthersOf(g: Store, key: ModelKey): set<ModelKey> {
    set k | k in g.nodes && k.name == key.name && k.version == key.version && k.mod != key.mod
  }

  /** The edge is one that the statement may add. */
  predicate Explains(s: Statement, e: Edge) {
    && s.key == e.from && e.to.version == e.from.version && KindOf(s) == e.kind
    && if s.Link? then e.to.name == s.parent
       else s.SelfExtend? && e.to.name == e.from.name && e.to.mod != e.from.mod
  }

  /** A model extends another name, delegates to one by a field, or extends its own. */
  predicate Asks(m: ModelInfo, kind: Kind, parent: Name) {
    match kind
    case Inherits => parent in m.inherit
    case DelegatesTo(field) => (parent, field) in m.inherits
  }

  lemma StatementsOfModel(m: ModelInfo, s: Statement)
    ensures s in ModelStatements(m) <==>
              s.key == m.key &&
              match s
              case MergeModel(_) => true
              case SelfExtend(_) => m.key.name in m.inherit
              case Link(_, kind, parent) => Asks(m, kind, parent) && !(kind == Inherits && parent == m.key.name)
  {
    var a, b := InheritStatements(m.key, m.inherit), DelegateStatements(m.key, m.inherits);
    assert s in ModelStatements(m) <==> s == MergeModel(m.key) || s in a || s in b;
    assert s in a <==> s.key == m.key && !s.MergeModel? && (s.SelfExtend? ==> m.key.name in m.inherit)
                       && (s.Link? ==> s.kind == Inherits && s.parent in m.inherit && s.parent != m.key.name) by {
      if i :| 0 <= i < |m.inherit| && m.inherit[i] == if s.Link? then s.parent else m.key.name {
        assert a[i] in a;
      }
    }
    assert s in b <==> s.key == m.key && s.Link? && s.kind.DelegatesTo?
                       && (s.parent, s.kind.viaField) in m.inherits by {
      if s.Link? && s.kind.DelegatesTo? && (s.parent, s.kind.viaField) in m.inherits {
        var i :| 0 <= i < |m.inherits| && m.inherits[i] == (s.parent, s.kind.viaField);
        assert b[i] in b;
      }
    }
  }

  lemma {:induction false} StatementsOf(models: seq<ModelInfo>, s: Statement)
    ensures s in ResultStatements(models) <==> exists m :: m in models && s in ModelStatements(m)
  {
    if models != [] {
      SplitLast(models);
      StatementsOf(models[..|models| - 1], s);
    }
  }

  /** Nothing a run finds or makes is lost in it. */
  lemma {:induction false} ExecKeeps(g: Store, ss: seq<Statement>, profiles: seq<Name>)
    ensures g.edges <= Exec(g, ss, profiles).edges && g.nodes.Keys <= Exec(g, ss, profiles).nodes.Keys
    ensures forall k :: k in g.nodes ==> Exec(g, ss, profiles).nodes[k].unresolved == g.nodes[k].unresolved
  {
    if ss != [] {
      ExecKeeps(g, ss[..|ss| - 1], profiles);
    }
  }

  /** What one statement finds or makes is there at the end of the run. */
  lemma {:induction false} StatementDone(g: Store, ss: seq<Statement>, s: Statement, profiles: seq<Name>)
    requires s in ss
    ensures Done(g, Exec(g, ss, profiles), s)
  {
    var front, last := ss[..|ss| - 1], ss[|ss| - 1];
    var before := Exec(g, front, profiles);
    if s in front {
      StatementDone(g, front, s, profiles);
      ExecKeeps(before, [last], profiles);
      assert [last][..0] == [];
      assert Exec(before, [last], profiles) == Run(before, last, profiles);
    } else {
      ExecKeeps(g, front, profiles);
    }
  }

  /** Every edge a run adds comes from one of its statements. */
  lemma {:induction false} EdgesExplained(g: Store, ss: seq<Statement>, e: Edge, profiles: seq<Name>)
    requires e in Exec(g, ss, profiles).edges && e !in g.edges
    ensures exists s :: s in ss && Explains(s, e)
  {
    var front, last := ss[..|ss| - 1], ss[|ss| - 1];
    if e in Exec(g, front, profiles).edges {
      EdgesExplained(g, front, e, profiles);
      var s :| s in front && Explains(s, e);
      assert s in ss;
    } else {
      assert last in ss;
    }
  }

  /** Main result for a module. Each of its models is a node afterwards; it is linked to every
      node of a parent it names that was resolved before, and to some node of that parent in
      any case; and to every other module's node of a name it extends. Every edge added goes
      from one of the models to a parent it names, by the field it names it by. */
  lemma ModelsLinked(g: Store, models: seq<ModelInfo>, profiles: seq<Name>)
    ensures var end := Exec(g, ResultStatements(models), profiles);
            && (forall m :: m in models ==> m.key in end.nodes)
            && (forall m, kind, parent ::
                  m in models && Asks(m, kind, parent) && !(kind == Inherits && parent == m.key.name) ==>
                  && (forall k :: k in Parents(g.nodes, parent, m.key.version) ==> HasEdge(end, m.key, k, kind))
                  && HasParent(end, m.key, kind, parent))
            && (forall m, k :: m in models && m.key.name in m.inherit && k in OthersOf(g, m.key) ==>
                  HasEdge(end, m.key, k, Inherits))
            && forall e :: e in end.edges && e !in g.edges ==>
                 exists m :: m in models && m.key == e.from && e.to.version == e.from.version
                             && Asks(m, e.kind, e.to.name)
  {
    var ss := ResultStatements(models);
    var end := Exec(g, ss, profiles);
    forall m | m in models ensures m.key in end.nodes {
      StatementAmong(models, m, MergeModel(m.key));
      StatementDone(g, ss, MergeModel(m.key), profiles);
    }
    forall m, kind, parent | m in models && Asks(m, kind, parent) && !(kind == Inherits && parent == m.key.name)
      ensures forall k :: k in Parents(g.nodes, parent, m.key.version) ==> HasEdge(end, m.key, k, kind)
      ensures HasParent(end, m.key, kind, parent)
    {
      StatementAmong(models, m, Link(m.key, kind, parent));
      StatementDone(g, ss, Link(m.key, kind, parent), profiles);
    }
    forall m, k | m in models && m.key.name in m.inherit && k in OthersOf(g, m.key)
      ensures HasEdge(end, m.key, k, Inherits)
    {
      StatementAmong(models, m, SelfExtend(m.key));
      StatementDone(g, ss, SelfExtend(m.key), profiles);
    }
    forall e | e in end.edges && e !in g.edges
      ensures exists m :: m in models && m.key == e.from && e.to.version == e.from.version && Asks(m, e.kind, e.to.name)
    {
      EdgesExplained(g, ss, e, profiles);
      var s :| s in ss && Explains(s, e);
      StatementsOf(models, s);
      var m :| m in models && s in ModelStatements(m);
      StatementsOfModel(m, s);
    }
  }

  lemma StatementAmong(models: seq<ModelInfo>, m: ModelInfo, s: Statement)
    requires m in models
    ensures s in ModelStatements(m) ==> s in ResultStatements(models)
    ensures s.key == m.key && s.MergeModel? ==> s in ResultStatements(models)
    ensures s.key == m.key && s.SelfExtend? && m.key.name in m.inherit ==> s in ResultStatements(models)
    ensures (s.key == m.key && s.Link? && Asks(m, s.kind, s.parent)
             && !(s.kind == Inherits && s.parent == m.key.name)) ==> s in ResultStatements(models)
  {
    StatementsOfModel(m, s);
    StatementsOf(models, s);
  }

  // ----- Profile lists -----

  /** The profiles written stand at the end of the list, in their order. */
  lemma {:induction false} ProfilesAtEnd(prior: seq<Name>, profiles: seq<Name>)
    ensures |MergeProfile(prior, profiles)| >= |profiles|
    ensures var r := MergeProfile(prior, profiles); r[|r| - |profiles|..] == profiles
  {
    if prior != [] {
      ProfilesAtEnd(prior[1..], profiles);
    }
  }

  /** A profile list keeps every name once however often it is written. */
  lemma {:induction false} ProfileMergeStable(prior: seq<Name>, profiles: seq<Name>)
    ensures Elems(MergeProfile(prior, profiles)) == Elems(prior) + Elems(profiles)
    ensures MergeProfile(MergeProfile(prior, profiles), profiles) == MergeProfile(prior, profiles)
    ensures NoDup(prior) && NoDup(profiles) ==> NoDup(MergeProfile(prior, profiles))
  {
    if prior == [] {
      MergeSelf(profiles, profiles);
    } else {
      var rest := MergeProfile(prior[1..], profiles);
      assert prior == [prior[0]] + prior[1..];
      ElemsConcat([prior[0]], prior[1..]);
      ProfileMergeStable(prior[1..], profiles);
      if NoDup(prior) {
        NoDupTail(prior);
      }
      if prior[0] in profiles {
        assert prior[0] in Elems(profiles);
      } else {
        ElemsConcat([prior[0]], rest);
        assert ([prior[0]] + rest)[1..] == rest;
        if NoDup(prior) && NoDup(profiles) {
          NoDupConcat([prior[0]], rest);
        }
      }
    }
  }

  lemma {:induction false} MergeSelf(part: seq<Name>, profiles: seq<Name>)
    requires forall x :: x in part ==> x in profiles
    ensures MergeProfile(part, profiles) == profiles
  {
    if part != [] {
      MergeSelf(part[1..], profiles);
    }
  }

  /** The nodes a run writes: the models and the placeholders of missing parents. */
  ghost function Touched(g: Store, ss: seq<Statement>): set<ModelKey> {
    Merged(ss) + Targets(Missing(Resolved(g), ss))
  }

  /** From `g` to `end` the nodes `touched` were written: each has the profiles at the end of
      its list, once. The other nodes are as before. */
  ghost predicate NodesWritten(g: Store, end: Store, touched: set<ModelKey>, profiles: seq<Name>) {
    && end.nodes.Keys == g.nodes.Keys + touched
    && (forall k :: k in g.nodes && k !in touched ==> end.nodes[k] == g.nodes[k])
    && forall k :: k in touched ==>
         end.nodes[k].profile == if k in g.nodes then MergeProfile(g.nodes[k].profile, profiles) else profiles
  }

  lemma NodesWrittenTwice(g: Store, mid: Store, end: Store, first: set<ModelKey>, second: set<ModelKey>,
                          profiles: seq<Name>)
    requires NodesWritten(g, mid, first, profiles) && NodesWritten(mid, end, second, profiles)
    ensures NodesWritten(g, end, first + second, profiles)
  {
    MergeSelf(profiles, profiles);
    forall k | k in g.nodes ensures Twice(g.nodes[k].profile, profiles) {
      ProfileMergeStable(g.nodes[k].profile, profiles);
    }
  }

  predicate Twice(prior: seq<Name>, profiles: seq<Name>) {
    MergeProfile(MergeProfile(prior, profiles), profiles) == MergeProfile(prior, profiles)
  }

  /** Main result on profiles. A run writes exactly the models it merges and the placeholders
      of missing parents. */
  lemma {:induction false} ProfilesWritten(g: Store, ss: seq<Statement>, profiles: seq<Name>)
    requires WellFormed(g) && RealModules(ss)
    ensures NodesWritten(g, Exec(g, ss, profiles), Touched(g, ss), profiles)
  {
    if ss != [] {
      var front, s := ss[..|ss| - 1], ss[|ss| - 1];
      var before := Exec(g, front, profiles);
      assert s in ss && forall x :: x in front ==> x in ss;
      ProfilesWritten(g, front, profiles);
      WriteCharacterised(g, front, profiles);
      TouchEffect(before, s, profiles);
      NodesWrittenTwice(g, before, Exec(g, ss, profiles), Touched(g, front), TouchedBy(before, s), profiles);
      assert Touched(g, ss) == Touched(g, front) + TouchedBy(before, s) by {
        MergedSplit(ss);
        MissingSplit(Resolved(g), ss);
      }
    }
  }

  ghost function TouchedBy(g: Store, s: Statement): set<ModelKey> {
    (if s.MergeModel? then {s.key} else {}) + Targets(MissingBy(Resolved(g), s))
  }

  lemma TouchEffect(g: Store, s: Statement, profiles: seq<Name>)
    requires WellFormed(g)
    ensures NodesWritten(g, Run(g, s, profiles), TouchedBy(g, s), profiles)
  {
    if s.Link? {
      assert Parents(g.nodes, s.parent, s.key.version) != {} <==> Defines(Resolved(g), s.parent, s.key.version) by {
        forall k | k in Resolved(g) && k.name == s.parent && k.version == s.key.version
          ensures k in Parents(g.nodes, s.parent, s.key.version)
        {
        }
      }
    }
  }
}
