/** The tree renderer (`src/mcp/tree_builder.py`): lines with connectors and indents, from
    which the tree can be read back. */
module TreeRender {

  datatype Tree = Tree(title: string, children: seq<Tree>, isRoot: bool)

  datatype Line = Line(text: string)

  const TEE: char := '\U{251C}'
  const CORNER: char := '\U{2514}'
  const BAR: char := '\U{2502}'
  const DASH: char := '\U{2500}'

  // ----- The lines of a tree -----

  function Indent(isLast: bool): (s: string)
    ensures |s| == 4 && s[0] == if isLast then ' ' else BAR
  {
    [if isLast then ' ' else BAR, ' ', ' ', ' ']
  }

  function Connector(isLast: bool): (s: string)
    ensures |s| == 3 && s[0] == if isLast then CORNER else TEE
  {
    [if isLast then CORNER else TEE, DASH, ' ']
  }

  function Head(prefix: string, isLast: bool, title: string): Line {
    Line(prefix + Connector(isLast) + title)
  }

  function Lines(t: Tree, prefix: string, isLast: bool): (r: seq<Line>)
    ensures r != []
  {
    if t.isRoot then [Line(t.title)] + Forest(t.children, "")
    else [Head(prefix, isLast, t.title)] + Forest(t.children, prefix + Indent(isLast))
  }

  /** Siblings one after the other; only the last one gets the corner. */
  function Forest(ts: seq<Tree>, prefix: string): seq<Line> {
    if ts == [] then [] else Lines(ts[0], prefix, |ts| == 1) + Forest(ts[1..], prefix)
  }

  function Join(lines: seq<Line>): string {
    if lines == [] then ""
    else if |lines| == 1 then lines[0].text
    else lines[0].text + ['\n'] + Join(lines[1..])
  }

  function Render(t: Tree): string {
    Join(Lines(t, "", true))
  }

  // ----- The renderer -----

  /** The list of lines every call appends to. */
  class LineBuffer {
    var lines: seq<Line>

    constructor ()
      ensures lines == []
    {
      lines := [];
    }
  }

  lemma ForestStep(before: seq<Line>, ts: seq<Tree>, i: nat, prefix: string)
    requires i < |ts|
    ensures before + Forest(ts[i..], prefix)
         == (before + Lines(ts[i], prefix, i == |ts| - 1)) + Forest(ts[i + 1..], prefix)
  {
  }

  method RenderInto(t: Tree, out: LineBuffer, prefix: string, isLast: bool)
    modifies out
    ensures out.lines == old(out.lines) + Lines(t, prefix, isLast)
    decreases t
  {
    var childPrefix := "";
    if t.isRoot {
      out.lines := out.lines + [Line(t.title)];
    } else {
      out.lines := out.lines + [Line(prefix + Connector(isLast) + t.title)];
      childPrefix := prefix + Indent(isLast);
    }
    ghost var goal := old(out.lines) + Lines(t, prefix, isLast);
    assert t.children[0..] == t.children;
    for i := 0 to |t.children|
      invariant out.lines + Forest(t.children[i..], childPrefix) == goal
    {
      ForestStep(out.lines, t.children, i, childPrefix);
      RenderInto(t.children[i], out, childPrefix, i == |t.children| - 1);
    }
  }

  method RenderTree(t: Tree) returns (text: string)
    ensures text == Render(t)
  {
    var out := new LineBuffer();
    RenderInto(t, out, "", true);
    assert [] + Lines(t, "", true) == Lines(t, "", true);
    text := JoinLines(out.lines);
  }

  method JoinLines(lines: seq<Line>) returns (text: string)
    ensures text == Join(lines)
  {
    text := "";
    for i := |lines| downto 0
      invariant text == Join(lines[i..])
    {
      assert lines[i..][1..] == lines[i + 1..];
      text := if i == |lines| - 1 then lines[i].text else lines[i].text + ['\n'] + text;
    }
  }

  /** `render_list_block`. */
  method RenderListBlock(rows: seq<string>, prefix: string) returns (lines: seq<Line>)
    ensures lines == Forest(Leaves(rows), prefix)
  {
    lines := [];
    for i := 0 to |rows|
      invariant lines + Forest(Leaves(rows[i..]), prefix) == Forest(Leaves(rows), prefix)
    {
      LeafBlock(rows, i, prefix);
      lines := lines + [Line(prefix + Connector(i == |rows| - 1) + rows[i])];
    }
  }

  function Leaves(rows: seq<string>): seq<Tree> {
    seq(|rows|, i requires 0 <= i < |rows| => Tree(rows[i], [], false))
  }

  lemma LeafBlock(rows: seq<string>, i: nat, prefix: string)
    requires i < |rows|
    ensures Forest(Leaves(rows[i..]), prefix) ==
              [Head(prefix, i == |rows| - 1, rows[i])] + Forest(Leaves(rows[i + 1..]), prefix)
  {
    var ts := Leaves(rows[i..]);
    assert ts[0] == Tree(rows[i], [], false);
    assert ts[1..] == Leaves(rows[i + 1..]);
    assert Lines(ts[0], prefix, |ts| == 1) == [Head(prefix, |ts| == 1, rows[i])];
  }

  // ----- One line per node -----

  function Size(t: Tree): nat {
    1 + Sizes(t.children)
  }

  function Sizes(ts: seq<Tree>): nat {
    if ts == [] then 0 else Size(ts[0]) + Sizes(ts[1..])
  }

  lemma {:induction false} OneLinePerNode(t: Tree, prefix: string, isLast: bool)
    ensures |Lines(t, prefix, isLast)| == Size(t)
    decreases t, 1
  {
    OneLinePerNodes(t.children, if t.isRoot then "" else prefix + Indent(isLast));
  }

  lemma {:induction false} OneLinePerNodes(ts: seq<Tree>, prefix: string)
    ensures |Forest(ts, prefix)| == Sizes(ts)
    decreases ts, 0
  {
    if ts != [] {
      OneLinePerNode(ts[0], prefix, |ts| == 1);
      OneLinePerNodes(ts[1..], prefix);
    }
  }

  // ----- The tree can be read back -----

  /** Labels without newline. */
  predicate OneLineLabels(t: Tree) {
    '\n' !in t.title && forall c :: c in t.children ==> OneLineLabels(c)
  }

  /** No node below is marked as a root. */
  predicate NoInnerRoots(t: Tree) {
    forall c :: c in t.children ==> !c.isRoot && NoInnerRoots(c)
  }

  predicate AllPlain(ts: seq<Tree>) {
    forall c :: c in ts ==> !c.isRoot && NoInnerRoots(c)
  }

  /** The line goes on after `prefix`, with `c`. */
  predicate Continues(line: Line, prefix: string, c: char) {
    |prefix| < |line.text| && line.text[..|prefix|] == prefix && line.text[|prefix|] == c
  }

  lemma HeadContinues(prefix: string, isLast: bool, title: string)
    ensures Continues(Head(prefix, isLast, title), prefix, if isLast then CORNER else TEE)
  {
  }

  lemma ContinuesUp(line: Line, prefix: string, isLast: bool, c: char)
    requires Continues(line, prefix + Indent(isLast), c)
    ensures Continues(line, prefix, Indent(isLast)[0])
  {
  }

  /** Every line below a node goes on, after the node's own prefix, with its indent. */
  lemma {:induction false} ForestContinues(ts: seq<Tree>, prefix: string, k: nat)
    requires forall c :: c in ts ==> !c.isRoot && NoInnerRoots(c)
    requires k < |Forest(ts, prefix)|
    ensures exists c :: Continues(Forest(ts, prefix)[k], prefix, c)
    ensures k == 0 ==> Continues(Forest(ts, prefix)[0], prefix, if |ts| == 1 then CORNER else TEE)
    decreases ts
  {
    var t, isLast := ts[0], |ts| == 1;
    var own := Lines(t, prefix, isLast);
    HeadContinues(prefix, isLast, t.title);
    if k == 0 {
      assert Forest(ts, prefix)[0] == Head(prefix, isLast, t.title);
    } else if k < |own| {
      ForestContinues(t.children, prefix + Indent(isLast), k - 1);
      var c :| Continues(Forest(t.children, prefix + Indent(isLast))[k - 1], prefix + Indent(isLast), c);
      assert Forest(ts, prefix)[k] == Forest(t.children, prefix + Indent(isLast))[k - 1];
      ContinuesUp(Forest(ts, prefix)[k], prefix, isLast, c);
    } else {
      ForestContinues(ts[1..], prefix, k - |own|);
      assert Forest(ts, prefix)[k] == Forest(ts[1..], prefix)[k - |own|];
    }
  }

  lemma HeadInjective(prefix: string, last1: bool, title1: string, last2: bool, title2: string)
    requires Head(prefix, last1, title1) == Head(prefix, last2, title2)
    ensures last1 == last2 && title1 == title2
  {
    var t1, t2 := Head(prefix, last1, title1).text, Head(prefix, last2, title2).text;
    assert t1[|prefix|] == t2[|prefix|];
    assert t1[|prefix| + 3..] == title1 && t2[|prefix| + 3..] == title2;
  }

  /** The lines below a first child end where a line goes on with a connector. */
  lemma FirstChildEnds(first1: seq<Tree>, first2: seq<Tree>, rest1: seq<Tree>, rest2: seq<Tree>, prefix: string)
    requires AllPlain(first1) && AllPlain(first2) && AllPlain(rest1) && AllPlain(rest2)
    requires rest1 != [] && rest2 != []
    requires Forest(first1, prefix + Indent(false)) + Forest(rest1, prefix) ==
             Forest(first2, prefix + Indent(false)) + Forest(rest2, prefix)
    ensures |Forest(first1, prefix + Indent(false))| >= |Forest(first2, prefix + Indent(false))|
  {
    var a1, a2 := Forest(first1, prefix + Indent(false)), Forest(first2, prefix + Indent(false));
    var b1 := Forest(rest1, prefix);
    if |a1| < |a2| {
      assert (a1 + b1)[|a1|] == b1[0] == a2[|a1|];
      ForestContinues(rest1, prefix, 0);
      ForestContinues(first2, prefix + Indent(false), |a1|);
      var c :| Continues(a2[|a1|], prefix + Indent(false), c);
      ContinuesUp(a2[|a1|], prefix, false, c);
      assert false;
    }
  }

  lemma {:induction false} ForestInjective(ts1: seq<Tree>, ts2: seq<Tree>, prefix: string)
    requires forall c :: c in ts1 + ts2 ==> !c.isRoot && NoInnerRoots(c)
    requires Forest(ts1, prefix) == Forest(ts2, prefix)
    ensures ts1 == ts2
    decreases ts1
  {
    if ts1 == [] || ts2 == [] {
      return;
    }
    var t1, t2, rest1, rest2 := ts1[0], ts2[0], ts1[1..], ts2[1..];
    assert t1 in ts1 + ts2 && t2 in ts1 + ts2;
    assert forall c :: c in rest1 || c in rest2 ==> c in ts1 + ts2;
    var last1, last2 := |ts1| == 1, |ts2| == 1;
    assert Forest(ts1, prefix)[0] == Forest(ts2, prefix)[0];
    HeadInjective(prefix, last1, t1.title, last2, t2.title);
    var a1, a2 := Forest(t1.children, prefix + Indent(last1)), Forest(t2.children, prefix + Indent(last1));
    var b1, b2 := Forest(rest1, prefix), Forest(rest2, prefix);
    assert Forest(ts1, prefix)[1..] == a1 + b1;
    assert Forest(ts2, prefix)[1..] == a2 + b2;
    if !last1 {
      FirstChildEnds(t1.children, t2.children, rest1, rest2, prefix);
      FirstChildEnds(t2.children, t1.children, rest2, rest1, prefix);
    }
    assert a1 == (a1 + b1)[..|a1|] && b1 == (a1 + b1)[|a1|..];
    assert a2 == (a2 + b2)[..|a2|] && b2 == (a2 + b2)[|a2|..];
    ForestInjective(t1.children, t2.children, prefix + Indent(last1));
    ForestInjective(rest1, rest2, prefix);
    assert ts1 == [t1] + rest1 && ts2 == [t2] + rest2;
  }

  // ----- Lines can be read back from the text -----

  ghost predicate NoNewlines(lines: seq<Line>) {
    forall l :: l in lines ==> '\n' !in l.text
  }

  lemma {:induction false} LinesHaveNoNewline(t: Tree, prefix: string, isLast: bool)
    requires OneLineLabels(t) && '\n' !in prefix
    ensures NoNewlines(Lines(t, prefix, isLast))
    decreases t, 1
  {
    var p := if t.isRoot then "" else prefix + Indent(isLast);
    ForestHasNoNewline(t.children, p);
  }

  lemma {:induction false} ForestHasNoNewline(ts: seq<Tree>, prefix: string)
    requires (forall c :: c in ts ==> OneLineLabels(c)) && '\n' !in prefix
    ensures NoNewlines(Forest(ts, prefix))
    decreases ts, 0
  {
    if ts != [] {
      LinesHaveNoNewline(ts[0], prefix, |ts| == 1);
      ForestHasNoNewline(ts[1..], prefix);
    }
  }

  /** A text splits at its first newline in one way only. */
  lemma SplitOnce(a: string, b: string, u: string, v: string)
    requires '\n' !in a && '\n' !in b && a + ['\n'] + u == b + ['\n'] + v
    ensures a == b && u == v
  {
    var s, t := a + ['\n'] + u, b + ['\n'] + v;
    assert s[|a|] == '\n' && t[|b|] == '\n';
    assert |a| == |b|;
    assert s[..|a|] == a && t[..|a|] == b && s[|a| + 1..] == u && t[|a| + 1..] == v;
  }

  lemma {:induction false} JoinInjective(a: seq<Line>, b: seq<Line>)
    requires a != [] && b != [] && NoNewlines(a) && NoNewlines(b) && Join(a) == Join(b)
    ensures a == b
    decreases |a|
  {
    assert a[0] in a && b[0] in b;
    if |a| == 1 && |b| > 1 {
      assert false;
    } else if |b| == 1 && |a| > 1 {
      assert false;
    } else if |a| > 1 {
      SplitOnce(a[0].text, b[0].text, Join(a[1..]), Join(b[1..]));
      JoinInjective(a[1..], b[1..]);
      assert a == [a[0]] + a[1..] && b == [b[0]] + b[1..];
    }
  }

  /** With one-line labels the text gives back the lines. */
  lemma TextGivesLines(t: Tree, u: Tree)
    requires OneLineLabels(t) && OneLineLabels(u)
    ensures Render(t) == Render(u) <==> Lines(t, "", true) == Lines(u, "", true)
  {
    LinesHaveNoNewline(t, "", true);
    LinesHaveNoNewline(u, "", true);
    if Render(t) == Render(u) {
      JoinInjective(Lines(t, "", true), Lines(u, "", true));
    }
  }

  /** Main result. Two trees with one-line labels whose top nodes are both roots or both not,
      and with no root below, are equal as soon as their renderings are. */
  lemma RenderInjective(t: Tree, u: Tree)
    requires t.isRoot == u.isRoot && NoInnerRoots(t) && NoInnerRoots(u)
    requires OneLineLabels(t) && OneLineLabels(u)
    requires Render(t) == Render(u)
    ensures t == u
  {
    TextGivesLines(t, u);
    var a, b := Lines(t, "", true), Lines(u, "", true);
    if t.isRoot {
      assert a[0] == b[0] && a[1..] == Forest(t.children, "") && b[1..] == Forest(u.children, "");
      ForestInjective(t.children, u.children, "");
    } else {
      assert Forest([t], "") == a && Forest([u], "") == b;
      ForestInjective([t], [u], "");
    }
  }

  // ----- With root marks anywhere -----

  /** The lines of a tree with a root on top leave no choice: there is at most one below the
      top, and it is a root's whose title does not look like a last child. */
  predicate ReadOneWay(t: Tree) {
    || t.children == []
    || (|t.children| == 1 && t.children[0].isRoot && t.children[0].children == []
        && !(Connector(true) <= t.children[0].title))
  }

  /** Main result with roots allowed anywhere. The text of a tree with a root on top is the
      text of no other such tree exactly when its lines can be read one way. */
  lemma TextDeterminesTreeIff(t: Tree)
    requires t.isRoot && OneLineLabels(t)
    ensures (forall u: Tree :: u.isRoot && OneLineLabels(u) && Render(u) == Render(t) ==> u == t) <==> ReadOneWay(t)
  {
    if ReadOneWay(t) {
      forall u: Tree | u.isRoot && OneLineLabels(u) && Render(u) == Render(t) ensures u == t {
        TextGivesLines(t, u);
        FewLinesOneTree(t, u);
      }
    } else {
      var u := OtherTree(t);
      TextGivesLines(t, u);
    }
  }

  lemma NoNodes(ts: seq<Tree>)
    ensures Sizes(ts) == 0 ==> ts == []
  {
    if ts != [] {
      assert Sizes(ts) == Size(ts[0]) + Sizes(ts[1..]);
    }
  }

  lemma FewLinesOneTree(t: Tree, u: Tree)
    requires t.isRoot && u.isRoot && ReadOneWay(t) && Lines(t, "", true) == Lines(u, "", true)
    ensures u == t
  {
    var below, other := Forest(t.children, ""), Forest(u.children, "");
    assert Lines(t, "", true)[0] == Lines(u, "", true)[0];
    assert below == Lines(t, "", true)[1..] == Lines(u, "", true)[1..] == other;
    OneLinePerNodes(t.children, "");
    OneLinePerNodes(u.children, "");
    if t.children != [] {
      var c, d := t.children[0], u.children[0];
      assert t.children == [c] && t.children[1..] == [];
      assert below == [Line(c.title)];
      assert Sizes(u.children) == Size(d) + Sizes(u.children[1..]) == 1;
      NoNodes(u.children[1..]);
      NoNodes(d.children);
      assert d == Tree(d.title, [], d.isRoot) && u.children == [d];
      LeafLines(d.title, d.isRoot);
      if !d.isRoot {
        assert false;
      }
    }
  }

  lemma LeafLines(title: string, isRoot: bool)
    ensures Forest([Tree(title, [], isRoot)], "") == [if isRoot then Line(title) else Line(Connector(true) + title)]
    ensures Head("", true, title).text == Connector(true) + title && Connector(true) <= Head("", true, title).text
  {
    var leaf := Tree(title, [], isRoot);
    assert [leaf][1..] == [];
    assert Lines(leaf, "", true) == [if isRoot then Line(title) else Head("", true, title)];
    assert Head("", true, title).text == Connector(true) + title;
  }

  /** Roots without children, one for each line. */
  function RootLeaves(lines: seq<Line>): seq<Tree> {
    seq(|lines|, i requires 0 <= i < |lines| => Tree(lines[i].text, [], true))
  }

  lemma {:induction false} RootLeavesLines(lines: seq<Line>)
    ensures Forest(RootLeaves(lines), "") == lines
    decreases |lines|
  {
    var ts := RootLeaves(lines);
    if lines != [] {
      RootLeavesLines(lines[1..]);
      assert ts[1..] == RootLeaves(lines[1..]);
      assert Lines(ts[0], "", |ts| == 1) == [lines[0]];
      assert lines == [lines[0]] + lines[1..];
    }
  }

  /** Another tree with the same lines: all lines side by side, or below the first of them, or
      a root read as a last child. */
  lemma OtherTree(t: Tree) returns (u: Tree)
    requires t.isRoot && OneLineLabels(t) && !ReadOneWay(t)
    ensures u.isRoot && OneLineLabels(u) && u != t && Lines(u, "", true) == Lines(t, "", true)
  {
    var below := Forest(t.children, "");
    var flat := RootLeaves(below);
    ForestHasNoNewline(t.children, "");
    RootLeavesLines(below);
    u := Tree(t.title, flat, true);
    if u == t {
      if |below| == 1 {
        var c := flat[0];
        var d := Tree(c.title[3..], [], false);
        u := Tree(t.title, [d], true);
        assert t.children == [c] && c.title == Connector(true) + d.title;
        LeafLines(c.title, true);
        LeafLines(d.title, false);
      } else {
        var first := Tree(below[0].text, RootLeaves(below[1..]), true);
        RootLeavesLines(below[1..]);
        u := Tree(t.title, [first], true);
        assert [first][1..] == [] && below == [below[0]] + below[1..];
        assert Forest([first], "") == below;
        assert |flat| == |below| != 1;
      }
    }
  }

  /** Root marks further down: two trees of one text. */
  lemma InnerRootsCollide() returns (t: Tree, u: Tree)
    ensures t != u && t.isRoot && u.isRoot && OneLineLabels(t) && OneLineLabels(u) && Render(t) == Render(u)
  {
    var leaf := Tree("b", [], true);
    t := Tree("a", [Tree("b", [leaf], true)], true);
    u := Tree("a", [leaf, leaf], true);
    assert Forest([leaf], "") == [Line("b")] by { assert [leaf][1..] == []; }
    assert Forest([leaf, leaf], "") == [Line("b"), Line("b")] by { assert [leaf, leaf][1..] == [leaf]; }
    assert [Tree("b", [leaf], true)][1..] == [];
    assert Forest(t.children, "") == [Line("b"), Line("b")];
  }

  // ----- The lines written out -----

  /** The line of a child is its prefix, then a tee and a dash, or a corner and a dash for the
      last one, and its title. The prefix of the lines below it is longer by a bar and three
      spaces, or by four spaces below the last one. A root's line is its title and adds no
      prefix. A tree's own line comes first, and the lines of its children follow. */
  lemma LineText(t: Tree, prefix: string, isLast: bool)
    ensures Head(prefix, isLast, t.title).text ==
              prefix + [if isLast then '\U{2514}' else '\U{251C}', '\U{2500}', ' '] + t.title
    ensures prefix + Indent(isLast) == prefix + (if isLast then "    " else ['\U{2502}'] + "   ")
    ensures Lines(t, prefix, isLast)[0] == if t.isRoot then Line(t.title) else Head(prefix, isLast, t.title)
    ensures Lines(t, prefix, isLast)[1..] == Forest(t.children, if t.isRoot then "" else prefix + Indent(isLast))
  {
  }

  /** Children stand in their order: child `i` and all below it behind the lines of the children
      before it, and only the last child is drawn as the last. */
  lemma {:induction false} ChildLines(ts: seq<Tree>, prefix: string, i: nat)
    requires i < |ts|
    ensures var from, to := Sizes(ts[..i]), Sizes(ts[..i]) + Size(ts[i]);
            to <= |Forest(ts, prefix)| && Forest(ts, prefix)[from..to] == Lines(ts[i], prefix, i == |ts| - 1)
    decreases |ts|
  {
    var first, rest := Lines(ts[0], prefix, |ts| == 1), Forest(ts[1..], prefix);
    OneLinePerNode(ts[0], prefix, |ts| == 1);
    if i == 0 {
      assert ts[..0] == [];
      assert (first + rest)[0..|first|] == first;
    } else {
      var from, to := Sizes(ts[1..][..i - 1]), Sizes(ts[1..][..i - 1]) + Size(ts[i]);
      ChildLines(ts[1..], prefix, i - 1);
      assert ts[..i] == [ts[0]] + ts[1..][..i - 1];
      assert Sizes(ts[..i]) == Size(ts[0]) + from by { assert ts[..i][1..] == ts[1..][..i - 1]; }
      Behind(first, rest, from, to);
    }
  }

  lemma Behind(first: seq<Line>, rest: seq<Line>, from: nat, to: nat)
    requires from <= to <= |rest|
    ensures (first + rest)[|first| + from..|first| + to] == rest[from..to]
  {
  }
}
