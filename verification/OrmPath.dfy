/** Walking dotted field paths over the indexed models (`src/mcp/orm.py`). */
module OrmPath {
  import opened Common
  import opened Names

  datatype Info = Info(ttype: Option<Name>, comodel: Option<Name>)

  /** The lookup of one field on one model. */
  type Lookup = (Name, Name) -> Option<Info>

  datatype Step = Step(model: Name, field: Name, info: Info)

  datatype Reason = Missing | NotRelational | DanglingComodel

  datatype Error = Error(at: nat, model: Name, field: Name, ttype: Option<Name>, reason: Reason)

  datatype Trace = Trace(steps: seq<Step>, terminal: Option<Step>, error: Option<Error>)

  // ----- Dotted paths -----

  function Flush(word: string): seq<Name> {
    if word == "" then [] else [Name(word)]
  }

  /** The parts of a dotted path, empty ones left out; `word` is the part begun. */
  function SplitFrom(s: string, word: string): seq<Name> {
    if s == "" then Flush(word)
    else if s[0] == '.' then Flush(word) + SplitFrom(s[1..], "")
    else SplitFrom(s[1..], word + [s[0]])
  }

  function Parts(path: string): seq<Name> {
    SplitFrom(path, "")
  }

  lemma {:induction false} SplitJoined(p: string, q: string, word: string)
    ensures SplitFrom(p + "." + q, word) == SplitFrom(p, word) + Parts(q)
    decreases |p|
  {
    var s := p + "." + q;
    if p == "" {
      assert s[1..] == q;
    } else {
      assert s[1..] == p[1..] + "." + q;
      SplitJoined(p[1..], q, if p[0] == '.' then "" else word + [p[0]]);
    }
  }

  // ----- The walk -----

  function Lower(s: string): string {
    if s == "" then "" else [if 'A' <= s[0] <= 'Z' then s[0] - 'A' + 'a' else s[0]] + Lower(s[1..])
  }

  predicate Relational(info: Info) {
    info.ttype.Some? && Lower(info.ttype.value.text) in {"many2one", "one2many", "many2many"}
  }

  predicate HasComodel(info: Info) {
    info.comodel.Some? && info.comodel.value.text != ""
  }

  /** What keeps the walk from going on behind a field, if anything. */
  function Blocked(info: Info): Option<Reason> {
    if !Relational(info) then Some(NotRelational) else if !HasComodel(info) then Some(DanglingComodel) else None
  }

  function Stopped(steps: seq<Step>, e: Error): Trace {
    Trace(steps, None, Some(e))
  }

  /** The walk over `parts` from part `i`, asked on `model`. */
  function Walk(lookup: Lookup, model: Name, parts: seq<Name>, i: nat): Trace
    requires i < |parts|
    decreases |parts| - i
  {
    var found := lookup(model, parts[i]);
    if found.None? then Stopped([], Error(i, model, parts[i], None, Missing))
    else
      var step := Step(model, parts[i], found.value);
      if i == |parts| - 1 then Trace([step], Some(step), None)
      else
        var blocked := Blocked(found.value);
        if blocked.Some? then Stopped([step], Error(i, model, parts[i], found.value.ttype, blocked.value))
        else Behind([step], Walk(lookup, found.value.comodel.value, parts, i + 1))
  }

  /** A trace with earlier steps put before its own. */
  function Behind(steps: seq<Step>, t: Trace): Trace {
    t.(steps := steps + t.steps)
  }

  lemma BehindBehind(a: seq<Step>, b: seq<Step>, t: Trace)
    ensures Behind(a, Behind(b, t)) == Behind(a + b, t)
  {
  }

  /** `_traverse_field_chain`; a path without parts counts as a missing field. */
  method TraverseFieldChain(lookup: Lookup, model: Name, path: string) returns (r: Trace)
    ensures r == if Parts(path) == [] then Stopped([], Error(0, model, Name(path), None, Missing))
                 else Walk(lookup, model, Parts(path), 0)
  {
    var parts := Parts(path);
    if parts == [] {
      return Stopped([], Error(0, model, Name(path), None, Missing));
    }
    var steps: seq<Step> := [];
    var current := model;
    var i := 0;
    while true
      invariant 0 <= i < |parts|
      invariant Walk(lookup, model, parts, 0) == Behind(steps, Walk(lookup, current, parts, i))
      decreases |parts| - i
    {
      var part := parts[i];
      var info := lookup(current, part);
      if info.None? {
        return Stopped(steps, Error(i, current, part, None, Missing));
      }
      var step := Step(current, part, info.value);
      if i < |parts| - 1 && Relational(info.value) && HasComodel(info.value) {
        BehindBehind(steps, [step], Walk(lookup, info.value.comodel.value, parts, i + 1));
      }
      steps := steps + [step];
      if i == |parts| - 1 {
        return Trace(steps, Some(step), None);
      }
      if !Relational(info.value) {
        return Stopped(steps, Error(i, current, part, info.value.ttype, NotRelational));
      }
      if !HasComodel(info.value) {
        return Stopped(steps, Error(i, current, part, info.value.ttype, DanglingComodel));
      }
      current := info.value.comodel.value;
      i := i + 1;
    }
  }

  // ----- Composition -----

  function Shifted(t: Trace, n: nat): Trace {
    if t.error.Some? then t.(error := Some(t.error.value.(at := t.error.value.at + n))) else t
  }

  /** Going on with `q` from where a walk ended, `n` parts on. */
  function Continued(lookup: Lookup, t: Trace, q: seq<Name>, n: nat): Trace
    requires q != [] && n > 0
  {
    if t.terminal.None? then t
    else
      var end := t.terminal.value;
      var blocked := Blocked(end.info);
      if blocked.Some? then
        Stopped(t.steps, Error(n - 1, end.model, end.field, end.info.ttype, blocked.value))
      else
        Behind(t.steps, Shifted(Walk(lookup, end.info.comodel.value, q, 0), n))
  }

  lemma {:induction false} WalkShift(lookup: Lookup, model: Name, p: seq<Name>, q: seq<Name>, j: nat)
    requires j < |q|
    ensures Walk(lookup, model, p + q, |p| + j) == Shifted(Walk(lookup, model, q, j), |p|)
    decreases |q| - j
  {
    assert (p + q)[|p| + j] == q[j];
    var found := lookup(model, q[j]);
    if found.Some? && j < |q| - 1 && Blocked(found.value).None? {
      WalkShift(lookup, found.value.comodel.value, p, q, j + 1);
    }
  }

  lemma {:induction false} ComposesFrom(lookup: Lookup, model: Name, p: seq<Name>, q: seq<Name>, i: nat)
    requires i < |p| && q != []
    ensures Walk(lookup, model, p + q, i) == Continued(lookup, Walk(lookup, model, p, i), q, |p|)
    decreases |p| - i
  {
    assert (p + q)[i] == p[i];
    var found := lookup(model, p[i]);
    if found.Some? && Blocked(found.value).None? {
      var next := found.value.comodel.value;
      var step := Step(model, p[i], found.value);
      if i == |p| - 1 {
        WalkShift(lookup, next, p, q, 0);
      } else {
        ComposesFrom(lookup, next, p, q, i + 1);
        ContinuedBehind(lookup, [step], Walk(lookup, next, p, i + 1), q, |p|);
      }
    }
  }

  lemma ContinuedBehind(lookup: Lookup, steps: seq<Step>, t: Trace, q: seq<Name>, n: nat)
    requires q != [] && n > 0
    ensures Continued(lookup, Behind(steps, t), q, n) == Behind(steps, Continued(lookup, t, q, n))
  {
  }

  /** Main result on composition. Walking `p` and then `q` is walking `p`, then `q` from the
      comodel `p` ends at, with positions in `q` moved behind `p`. */
  lemma WalkComposes(lookup: Lookup, model: Name, p: seq<Name>, q: seq<Name>)
    requires p != [] && q != []
    ensures Walk(lookup, model, p + q, 0) == Continued(lookup, Walk(lookup, model, p, 0), q, |p|)
  {
    ComposesFrom(lookup, model, p, q, 0);
  }

  /** On dotted text: joining two paths by a dot composes their walks. */
  lemma DottedPathsCompose(lookup: Lookup, model: Name, p: string, q: string)
    requires Parts(p) != [] && Parts(q) != []
    ensures Parts(p + "." + q) != []
    ensures Walk(lookup, model, Parts(p + "." + q), 0) ==
              Continued(lookup, Walk(lookup, model, Parts(p), 0), Parts(q), |Parts(p)|)
  {
    SplitJoined(p, q, "");
    WalkComposes(lookup, model, Parts(p), Parts(q));
  }

  // ----- When a walk succeeds, and where it fails -----

  /** The model part `k` is asked on: the comodel of the field before it. */
  function ModelAt(lookup: Lookup, model: Name, parts: seq<Name>, k: nat): Option<Name>
    requires k <= |parts|
    decreases k, 0
  {
    if k == 0 then Some(model)
    else
      var before := FieldAt(lookup, model, parts, k - 1);
      if before.Some? then before.value.comodel else None
  }

  function FieldAt(lookup: Lookup, model: Name, parts: seq<Name>, k: nat): Option<Info>
    requires k < |parts|
    decreases k, 1
  {
    var on := ModelAt(lookup, model, parts, k);
    if on.Some? then lookup(on.value, parts[k]) else None
  }

  /** Part `k` exists and, unless it is the last, is relational with a comodel. */
  predicate Passes(lookup: Lookup, model: Name, parts: seq<Name>, k: nat)
    requires k < |parts|
  {
    var field := FieldAt(lookup, model, parts, k);
    field.Some? && (k < |parts| - 1 ==> Relational(field.value) && HasComodel(field.value))
  }

  /** The error names the model and field it stopped at and why. */
  predicate Describes(lookup: Lookup, model: Name, parts: seq<Name>, e: Error)
    requires e.at < |parts|
  {
    var field := FieldAt(lookup, model, parts, e.at);
    && ModelAt(lookup, model, parts, e.at) == Some(e.model) && e.field == parts[e.at]
    && (e.reason == Missing <==> field.None?)
    && (e.reason == NotRelational <==> field.Some? && !Relational(field.value))
    && e.ttype == if field.Some? then field.value.ttype else None
  }

  /** What a walk from part `i` answers, read off the parts one by one. */
  ghost predicate Explained(lookup: Lookup, model: Name, parts: seq<Name>, i: nat, t: Trace) {
    && i < |parts|
    && (t.terminal.Some? <==> t.error.None?)
    && (t.error.None? ==>
          && (forall k :: i <= k < |parts| ==> Passes(lookup, model, parts, k))
          && |t.steps| == |parts| - i && t.terminal.value == t.steps[|t.steps| - 1])
    && (t.error.Some? ==>
          && i <= t.error.value.at < |parts|
          && !Passes(lookup, model, parts, t.error.value.at)
          && (forall k :: i <= k < t.error.value.at ==> Passes(lookup, model, parts, k))
          && |t.steps| == t.error.value.at - i + (if t.error.value.reason == Missing then 0 else 1)
          && Describes(lookup, model, parts, t.error.value))
    && (forall k :: i <= k < i + |t.steps| ==>
          && FieldAt(lookup, model, parts, k).Some?
          && t.steps[k - i] == Step(ModelAt(lookup, model, parts, k).value, parts[k],
                                    FieldAt(lookup, model, parts, k).value))
  }

  lemma {:induction false} ExplainedFrom(lookup: Lookup, model: Name, parts: seq<Name>, i: nat, here: Name)
    requires i < |parts| && ModelAt(lookup, model, parts, i) == Some(here)
    ensures Explained(lookup, model, parts, i, Walk(lookup, here, parts, i))
    decreases |parts| - i
  {
    var found := lookup(here, parts[i]);
    if found.Some? && i < |parts| - 1 && Blocked(found.value).None? {
      var next := found.value.comodel.value;
      ExplainedFrom(lookup, model, parts, i + 1, next);
      var rest := Walk(lookup, next, parts, i + 1);
      var t := Walk(lookup, here, parts, i);
      assert t == Behind([Step(here, parts[i], found.value)], rest);
      forall k | i <= k < i + |t.steps|
        ensures FieldAt(lookup, model, parts, k).Some?
        ensures t.steps[k - i] == Step(ModelAt(lookup, model, parts, k).value, parts[k],
                                       FieldAt(lookup, model, parts, k).value)
      {
        if k > i {
          assert t.steps[k - i] == rest.steps[k - (i + 1)];
        }
      }
    }
  }

  /** Main result on success. A walk ends without error exactly when every field on the way
      exists and every field but the last is relational with a comodel; otherwise its error
      names the first part for which that fails. */
  lemma WalkSucceedsIff(lookup: Lookup, model: Name, parts: seq<Name>)
    requires parts != []
    ensures var t := Walk(lookup, model, parts, 0);
            && (t.terminal.Some? <==> t.error.None?)
            && (t.error.None? <==> forall k :: 0 <= k < |parts| ==> Passes(lookup, model, parts, k))
            && Explained(lookup, model, parts, 0, t)
  {
    ExplainedFrom(lookup, model, parts, 0, model);
  }

  // ----- Domains -----

  datatype Term =
    | Word(text: string)
    | Malformed
    | Condition(path: Option<string>, op: Name)

  /** What is wrong with one term of a domain. */
  predicate Broken(lookup: Lookup, model: Name, operators: set<Name>, term: Term) {
    match term
    case Word(text) => text !in {"&", "|", "!"}
    case Malformed => true
    case Condition(path, op) =>
      || op !in operators || path.None? || Parts(path.value) == []
      || Walk(lookup, model, Parts(path.value), 0).error.Some?
  }

  /** The term loop of `_validate_domain`: the number of terms reported as errors. */
  method ValidateDomain(lookup: Lookup, model: Name, operators: set<Name>, terms: seq<Term>) returns (errors: nat)
    ensures errors == |set i | 0 <= i < |terms| && Broken(lookup, model, operators, terms[i])|
    ensures errors == 0 <==> forall t :: t in terms ==> !Broken(lookup, model, operators, t)
  {
    errors := 0;
    ghost var bad: set<int> := {};
    for i := 0 to |terms|
      invariant bad == set j | 0 <= j < i && Broken(lookup, model, operators, terms[j])
      invariant errors == |bad|
    {
      var problem := false;
      match terms[i] {
        case Word(text) => problem := text !in {"&", "|", "!"};
        case Malformed => problem := true;
        case Condition(path, op) =>
          if path.None? {
            problem := true;
          } else {
            var chain := TraverseFieldChain(lookup, model, path.value);
            problem := chain.error.Some?;
          }
          if op !in operators {
            problem := true;
          }
      }
      if problem {
        errors := errors + 1;
        bad := bad + {i};
      }
    }
    if errors == 0 {
      forall t | t in terms ensures !Broken(lookup, model, operators, t) {
        var i :| 0 <= i < |terms| && terms[i] == t;
        assert i !in bad;
      }
    } else {
      assert bad != {};
      ghost var i :| i in bad;
      assert terms[i] in terms;
    }
  }

  // ----- Parts and types written out -----

  function Joined(parts: seq<Name>): string {
    if parts == [] then "" else if |parts| == 1 then parts[0].text else parts[0].text + "." + Joined(parts[1..])
  }

  /** No part is empty or contains a dot. */
  lemma {:induction false} PartsPlain(s: string, word: string)
    requires '.' !in word
    ensures forall p :: p in SplitFrom(s, word) ==> p.text != "" && '.' !in p.text
    decreases |s|
  {
    if s != "" {
      PartsPlain(s[1..], if s[0] == '.' then "" else word + [s[0]]);
    }
  }

  /** A text without dots is one part, and a leading, trailing or doubled dot changes nothing. */
  lemma {:induction false} OnePart(s: string, word: string)
    requires '.' !in s
    ensures SplitFrom(s, word) == if word + s == "" then [] else [Name(word + s)]
    decreases |s|
  {
    if s == "" {
      assert word + s == word;
    } else {
      OnePart(s[1..], word + [s[0]]);
      assert word + s == (word + [s[0]]) + s[1..];
    }
  }

  /** Splitting undoes joining: parts without dots that are not empty come back from the text
      they are joined to. */
  lemma {:induction false} PartsOfJoined(parts: seq<Name>)
    requires forall p :: p in parts ==> p.text != "" && '.' !in p.text
    ensures Parts(Joined(parts)) == parts
    decreases |parts|
  {
    if parts != [] {
      var p := parts[0].text;
      assert parts[0] in parts;
      OnePart(p, "");
      assert "" + p == p;
      if |parts| == 1 {
        assert parts == [parts[0]];
      } else {
        PartsOfJoined(parts[1..]);
        SplitJoined(p, Joined(parts[1..]), "");
        assert parts == [parts[0]] + parts[1..];
      }
    }
  }

  /** The three types that lead on, in any letter case, and no others. */
  lemma RelationalTypes(info: Info)
    ensures Relational(info) <==> info.ttype.Some? && exists t: string ::
              (t == "many2one" || t == "one2many" || t == "many2many") && SameLetters(info.ttype.value.text, t)
  {
    if info.ttype.Some? {
      LowerLetters(info.ttype.value.text);
      if t: string :| (t == "many2one" || t == "one2many" || t == "many2many")
                      && SameLetters(info.ttype.value.text, t) {
        assert Lower(info.ttype.value.text) == t;
      }
    }
  }

  /** `t` has no capital letter and is `s` up to capitals. */
  predicate SameLetters(s: string, t: string) {
    |s| == |t| && forall i :: 0 <= i < |s| ==>
      !('A' <= t[i] <= 'Z') && (s[i] == t[i] || ('A' <= s[i] <= 'Z' && t[i] as int == s[i] as int + 32))
  }

  lemma {:induction false} LowerLetters(s: string)
    ensures SameLetters(s, Lower(s))
    ensures forall t :: SameLetters(s, t) ==> t == Lower(s)
  {
    if s != "" {
      LowerLetters(s[1..]);
      var l := Lower(s);
      forall i | 0 <= i < |s| ensures !('A' <= l[i] <= 'Z')
                              ensures s[i] == l[i] || ('A' <= s[i] <= 'Z' && l[i] as int == s[i] as int + 32) {
        if i > 0 { assert s[i] == s[1..][i - 1] && l[i] == Lower(s[1..])[i - 1]; }
      }
      forall t | SameLetters(s, t) ensures t == l {
        forall i | 0 <= i < |t| ensures t[i] == l[i] {
        }
      }
    }
  }

  /** Which terms are reported: words but `&`, `|` and `!`, terms that are no triples, and
      triples with an unknown operator, without a path, or with a part that does not pass. */
  lemma BrokenTerms(lookup: Lookup, model: Name, operators: set<Name>, term: Term)
    ensures Broken(lookup, model, operators, term) <==>
              match term
              case Word(text) => text != "&" && text != "|" && text != "!"
              case Malformed => true
              case Condition(path, op) =>
                !(op in operators && path.Some? && Parts(path.value) != []
                  && forall k :: 0 <= k < |Parts(path.value)| ==> Passes(lookup, model, Parts(path.value), k))
  {
    if term.Condition? && term.path.Some? && Parts(term.path.value) != [] {
      WalkSucceedsIff(lookup, model, Parts(term.path.value));
    }
  }

  /** A field before the last stops the walk when its type leads nowhere, and else when it has
      no comodel recorded, a blank one being none; with one, the walk goes on there. */
  lemma NextModel(lookup: Lookup, model: Name, parts: seq<Name>, i: nat, info: Info)
    requires i < |parts| - 1 && lookup(model, parts[i]) == Some(info)
    ensures var t := Walk(lookup, model, parts, i);
            && (!Relational(info) ==> t.error == Some(Error(i, model, parts[i], info.ttype, NotRelational)))
            && (Relational(info) && (info.comodel == None || info.comodel == Some(Name(""))) ==>
                  t.error == Some(Error(i, model, parts[i], info.ttype, DanglingComodel)))
            && (Relational(info) && info.comodel.Some? && info.comodel.value != Name("") ==>
                  t == Behind([Step(model, parts[i], info)], Walk(lookup, info.comodel.value, parts, i + 1)))
  {
  }
}
