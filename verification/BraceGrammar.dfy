/** Balanced source text, and the proof that the bracket scanner accepts exactly it. */
module BraceGrammar {
  import opened Common
  import opened BraceScan

  /** A character of a literal, or a backslash and the character it escapes. */
  datatype Unit = Ch(c: char) | Esc(c: char)

  /** Plain characters, closed literals, comments ended by a newline, and nested blocks. */
  datatype Body =
    | End
    | Plain(c: char, rest: Body)
    | Literal(quote: Quote, units: seq<Unit>, rest: Body)
    | Comment(text: string, rest: Body)
    | Nested(inner: Body, rest: Body)

  function UnitText(u: Unit): string {
    match u
    case Ch(c) => [c]
    case Esc(c) => ['\\', c]
  }

  function UnitsText(units: seq<Unit>): string {
    if units == [] then [] else UnitText(units[0]) + UnitsText(units[1..])
  }

  function Text(b: Brackets, body: Body): string {
    match body
    case End => []
    case Plain(c, rest) => [c] + Text(b, rest)
    case Literal(q, units, rest) => q.Text() + (UnitsText(units) + q.Text() + Text(b, rest))
    case Comment(text, rest) => ['#'] + (text + (['\n'] + Text(b, rest)))
    case Nested(inner, rest) => [b.open] + (Text(b, inner) + ([b.close] + Text(b, rest)))
  }

  /** No place in the literal before its end reads as the closing delimiter. */
  predicate ClosesAtEnd(q: Quote, units: seq<Unit>) {
    units != [] ==>
      (units[0].Ch? ==> units[0].c != '\\' && !Matches(q, UnitsText(units) + q.Text(), 0))
      && ClosesAtEnd(q, units[1..])
  }

  function FirstChar(s: string, next: Option<char>): Option<char> {
    if s == [] then next else Some(s[0])
  }

  /** Text that reads as balanced when `next` comes after it. An empty one-quote literal
      must not be followed by its own quote, which would make it a triple quote. */
  predicate Balanced(b: Brackets, body: Body, next: Option<char>) {
    match body
    case End => true
    case Plain(c, rest) => c != '#' && !IsQuote(c) && c != b.open && c != b.close && Balanced(b, rest, next)
    case Literal(q, units, rest) =>
      && IsQuote(q.c) && ClosesAtEnd(q, units) && Balanced(b, rest, next)
      && (!q.triple && units == [] ==> FirstChar(Text(b, rest), next) != Some(q.c))
    case Comment(text, rest) => '\n' !in text && Balanced(b, rest, next)
    case Nested(inner, rest) => Balanced(b, inner, Some(b.close)) && Balanced(b, rest, next)
  }

  // ----- A text at a place in a larger one -----

  predicate At(s: string, i: nat, t: string) {
    i + |t| <= |s| && forall k {:trigger t[k]} :: 0 <= k < |t| ==> s[i + k] == t[k]
  }

  function CharAt(s: string, i: nat): Option<char> {
    if i < |s| then Some(s[i]) else None
  }

  lemma AtConcat(s: string, i: nat, t: string, u: string)
    ensures At(s, i, t + u) <==> At(s, i, t) && At(s, i + |t|, u)
  {
    if At(s, i, t + u) {
      forall k | 0 <= k < |t| ensures s[i + k] == t[k] {
        assert (t + u)[k] == t[k];
      }
      forall k | 0 <= k < |u| ensures s[i + |t| + k] == u[k] {
        assert (t + u)[|t| + k] == u[k];
      }
    }
  }

  lemma AtChar(s: string, i: nat, c: char)
    ensures At(s, i, [c]) <==> CharAt(s, i) == Some(c)
  {
    assert [c][0] == c;
  }

  lemma AtQuote(s: string, i: nat, q: Quote)
    ensures At(s, i, q.Text()) <==> Matches(q, s, i)
  {
    var t := q.Text();
    assert t[0] == q.c;
    assert q.triple ==> t[1] == q.c && t[2] == q.c;
  }

  /** Where the parts of each kind of body stand. */
  lemma PlainAt(b: Brackets, s: string, i: nat, c: char, rest: Body)
    ensures At(s, i, Text(b, Plain(c, rest))) <==> CharAt(s, i) == Some(c) && At(s, i + 1, Text(b, rest))
    ensures |Text(b, Plain(c, rest))| == 1 + |Text(b, rest)|
  {
    AtConcat(s, i, [c], Text(b, rest));
    AtChar(s, i, c);
  }

  lemma EnclosedAt(s: string, i: nat, open: char, t: string, close: char, u: string)
    ensures At(s, i, [open] + (t + ([close] + u))) <==>
              && CharAt(s, i) == Some(open) && At(s, i + 1, t)
              && CharAt(s, i + 1 + |t|) == Some(close) && At(s, i + |t| + 2, u)
  {
    AtConcat(s, i, [open], t + ([close] + u));
    AtChar(s, i, open);
    AtConcat(s, i + 1, t, [close] + u);
    AtConcat(s, i + 1 + |t|, [close], u);
    AtChar(s, i + 1 + |t|, close);
  }

  lemma CommentAt(b: Brackets, s: string, i: nat, text: string, rest: Body)
    ensures At(s, i, Text(b, Comment(text, rest))) <==>
              && CharAt(s, i) == Some('#') && At(s, i + 1, text)
              && CharAt(s, i + 1 + |text|) == Some('\n') && At(s, i + |text| + 2, Text(b, rest))
    ensures |Text(b, Comment(text, rest))| == |text| + 2 + |Text(b, rest)|
  {
    EnclosedAt(s, i, '#', text, '\n', Text(b, rest));
  }

  lemma NestedAt(b: Brackets, s: string, i: nat, inner: Body, rest: Body)
    ensures At(s, i, Text(b, Nested(inner, rest))) <==>
              && CharAt(s, i) == Some(b.open) && At(s, i + 1, Text(b, inner))
              && CharAt(s, i + 1 + |Text(b, inner)|) == Some(b.close)
              && At(s, i + |Text(b, inner)| + 2, Text(b, rest))
    ensures |Text(b, Nested(inner, rest))| == |Text(b, inner)| + 2 + |Text(b, rest)|
  {
    EnclosedAt(s, i, b.open, Text(b, inner), b.close, Text(b, rest));
  }

  lemma LiteralAt(b: Brackets, s: string, i: nat, q: Quote, units: seq<Unit>, rest: Body)
    ensures At(s, i, Text(b, Literal(q, units, rest))) <==>
              && Matches(q, s, i) && At(s, i + q.Len(), UnitsText(units) + q.Text())
              && At(s, i + 2 * q.Len() + |UnitsText(units)|, Text(b, rest))
    ensures |Text(b, Literal(q, units, rest))| == 2 * q.Len() + |UnitsText(units)| + |Text(b, rest)|
  {
    var inside := UnitsText(units) + q.Text();
    AtConcat(s, i, q.Text(), inside + Text(b, rest));
    AtQuote(s, i, q);
    AtConcat(s, i + q.Len(), inside, Text(b, rest));
  }

  lemma UnitsAt(s: string, i: nat, q: Quote, u: Unit, rest: seq<Unit>)
    ensures At(s, i, UnitsText([u] + rest) + q.Text()) <==>
              At(s, i, UnitText(u)) && At(s, i + |UnitText(u)|, UnitsText(rest) + q.Text())
    ensures |UnitsText([u] + rest)| == |UnitText(u)| + |UnitsText(rest)|
  {
    assert ([u] + rest)[1..] == rest;
    assert UnitsText([u] + rest) + q.Text() == UnitText(u) + (UnitsText(rest) + q.Text());
    AtConcat(s, i, UnitText(u), UnitsText(rest) + q.Text());
  }

  lemma UnitAt(s: string, i: nat, u: Unit)
    ensures At(s, i, UnitText(u)) <==>
              match u
              case Ch(c) => CharAt(s, i) == Some(c)
              case Esc(c) => CharAt(s, i) == Some('\\') && CharAt(s, i + 1) == Some(c)
  {
    match u
    case Ch(c) => AtChar(s, i, c);
    case Esc(c) =>
      assert UnitText(u) == ['\\'] + [c];
      AtConcat(s, i, ['\\'], [c]);
      AtChar(s, i, '\\');
      AtChar(s, i + 1, c);
  }

  // ----- Balanced text is scanned over -----

  lemma {:induction false} CommentEndRight(s: string, i: nat, text: string)
    requires '\n' !in text && At(s, i, text) && CharAt(s, i + |text|) == Some('\n')
    ensures CommentEnd(s, i) == i + |text|
    decreases |text|
  {
    if text != [] {
      assert s[i + 0] == text[0];
      forall k | 0 <= k < |text[1..]| ensures s[i + 1 + k] == text[1..][k] {
        assert text[1..][k] == text[k + 1];
      }
      CommentEndRight(s, i + 1, text[1..]);
    }
  }

  lemma {:induction false} StringEndRight(s: string, i: nat, q: Quote, units: seq<Unit>)
    requires IsQuote(q.c) && ClosesAtEnd(q, units) && At(s, i, UnitsText(units) + q.Text())
    ensures StringEnd(s, i, q) == Some(i + |UnitsText(units)| + q.Len())
    decreases |units|
  {
    var t := UnitsText(units) + q.Text();
    if units == [] {
      assert t == q.Text();
      AtQuote(s, i, q);
    } else {
      var u, rest := units[0], units[1..];
      assert units == [u] + rest;
      UnitsAt(s, i, q, u, rest);
      assert StringEnd(s, i, q) == StringEnd(s, i + |UnitText(u)|, q) by {
        UnitAt(s, i, u);
      }
      StringEndRight(s, i + |UnitText(u)|, q, rest);
    }
  }

  /** The opening delimiter is read for what it is. */
  lemma QuoteRead(s: string, i: nat, q: Quote, units: seq<Unit>)
    requires IsQuote(q.c) && ClosesAtEnd(q, units)
    requires Matches(q, s, i) && At(s, i + q.Len(), UnitsText(units) + q.Text())
    requires !q.triple && units == [] ==> CharAt(s, i + 2) != Some(q.c)
    ensures QuoteAt(s, i) == q
  {
    var t := UnitsText(units) + q.Text();
    if !q.triple && units != [] {
      assert units == [units[0]] + units[1..];
      UnitsAt(s, i + 1, q, units[0], units[1..]);
      UnitAt(s, i + 1, units[0]);
    }
  }

  /** The scanner gets from `i` to `e` and is at the same depth again. */
  ghost predicate Passes(b: Brackets, s: string, i: nat, e: nat) {
    forall depth: nat {:trigger Scan(b, s, i, depth)} :: depth >= 1 ==> Scan(b, s, i, depth) == Scan(b, s, e, depth)
  }

  lemma TokenPasses(b: Brackets, s: string, i: nat, e: nat)
    requires TokenAt(b, s, i) == Some(Token(e, 0))
    ensures Passes(b, s, i, e)
  {
  }

  /** Past a literal, a comment, and so on, one kind at a time. */
  lemma LiteralPasses(b: Brackets, s: string, i: nat, q: Quote, units: seq<Unit>, e: nat)
    requires IsQuote(q.c) && ClosesAtEnd(q, units)
    requires Matches(q, s, i) && At(s, i + q.Len(), UnitsText(units) + q.Text())
    requires !q.triple && units == [] ==> CharAt(s, i + 2) != Some(q.c)
    requires e == i + 2 * q.Len() + |UnitsText(units)|
    ensures Passes(b, s, i, e)
  {
    QuoteRead(s, i, q, units);
    StringEndRight(s, i + q.Len(), q, units);
    TokenPasses(b, s, i, e);
  }

  lemma CommentPasses(b: Brackets, s: string, i: nat, text: string)
    requires IsBracket(b) && CharAt(s, i) == Some('#') && At(s, i + 1, text) && '\n' !in text
    requires CharAt(s, i + 1 + |text|) == Some('\n')
    ensures Passes(b, s, i, i + |text| + 2)
  {
    CommentEndRight(s, i + 1, text);
    TokenPasses(b, s, i, i + 1 + |text|);
    TokenPasses(b, s, i + 1 + |text|, i + |text| + 2);
  }

  lemma BracketScanned(b: Brackets, s: string, i: nat, depth: nat)
    requires IsBracket(b) && depth >= 1
    ensures CharAt(s, i) == Some(b.open) ==> Scan(b, s, i, depth) == Scan(b, s, i + 1, depth + 1)
    ensures CharAt(s, i) == Some(b.close) ==> Scan(b, s, i, depth + 1) == Scan(b, s, i + 1, depth)
  {
  }

  lemma NestedPasses(b: Brackets, s: string, i: nat, e: nat)
    requires IsBracket(b) && CharAt(s, i) == Some(b.open) && CharAt(s, e) == Some(b.close)
    requires Passes(b, s, i + 1, e)
    ensures Passes(b, s, i, e + 1)
  {
  }

  lemma PlainPasses(b: Brackets, s: string, i: nat, c: char)
    requires c != '#' && !IsQuote(c) && c != b.open && c != b.close && CharAt(s, i) == Some(c)
    ensures Passes(b, s, i, i + 1)
  {
  }

  /** `rest` is balanced text that stands at `e` and ends at `n`. */
  ghost predicate Stands(b: Brackets, rest: Body, s: string, e: nat, n: nat) {
    At(s, e, Text(b, rest)) && n == e + |Text(b, rest)| && Balanced(b, rest, CharAt(s, n))
  }

  lemma PlainStep(b: Brackets, s: string, i: nat, c: char, rest: Body, n: nat)
    requires Stands(b, Plain(c, rest), s, i, n)
    ensures Passes(b, s, i, i + 1) && Stands(b, rest, s, i + 1, n)
  {
    PlainAt(b, s, i, c, rest);
    PlainPasses(b, s, i, c);
  }

  lemma CommentStep(b: Brackets, s: string, i: nat, text: string, rest: Body, n: nat)
    requires IsBracket(b) && Stands(b, Comment(text, rest), s, i, n)
    ensures Passes(b, s, i, i + |text| + 2) && Stands(b, rest, s, i + |text| + 2, n)
  {
    CommentAt(b, s, i, text, rest);
    CommentPasses(b, s, i, text);
  }

  lemma LiteralStep(b: Brackets, s: string, i: nat, q: Quote, units: seq<Unit>, rest: Body, n: nat) returns (e: nat)
    requires Stands(b, Literal(q, units, rest), s, i, n)
    ensures Passes(b, s, i, e) && Stands(b, rest, s, e, n)
  {
    e := i + 2 * q.Len() + |UnitsText(units)|;
    LiteralAt(b, s, i, q, units, rest);
    LiteralPasses(b, s, i, q, units, e);
  }

  lemma NestedStep(b: Brackets, s: string, i: nat, inner: Body, rest: Body, n: nat) returns (e: nat)
    requires Stands(b, Nested(inner, rest), s, i, n)
    ensures CharAt(s, i) == Some(b.open) && Stands(b, inner, s, i + 1, e)
    ensures CharAt(s, e) == Some(b.close) && Stands(b, rest, s, e + 1, n)
  {
    NestedAt(b, s, i, inner, rest);
    e := i + 1 + |Text(b, inner)|;
  }

  /** Main result one way. The scanner passes over balanced text, whatever surrounds it. */
  lemma {:induction false} BalancedPasses(b: Brackets, body: Body, s: string, i: nat, n: nat)
    requires IsBracket(b) && Stands(b, body, s, i, n)
    ensures Passes(b, s, i, n)
    decreases body
  {
    if body != End {
      var e: nat;
      match body {
        case Plain(c, rest) =>
          PlainStep(b, s, i, c, rest, n);
          e := i + 1;
        case Literal(q, units, rest) =>
          e := LiteralStep(b, s, i, q, units, rest, n);
        case Comment(text, rest) =>
          CommentStep(b, s, i, text, rest, n);
          e := i + |text| + 2;
        case Nested(inner, rest) =>
          var m := NestedStep(b, s, i, inner, rest, n);
          BalancedPasses(b, inner, s, i + 1, m);
          NestedPasses(b, s, i, m);
          e := m + 1;
      }
      BalancedPasses(b, body.rest, s, e, n);
    }
  }

  /** Scanning a balanced body, the closing bracket and anything else stops right at the
      end of the body. */
  lemma ScanStopsBehindBody(b: Brackets, body: Body, rest: string)
    requires IsBracket(b) && Balanced(b, body, Some(b.close))
    ensures Scan(b, Text(b, body) + [b.close] + rest, 0, 1) == Some(|Text(b, body)|)
  {
    var s := Text(b, body) + [b.close] + rest;
    assert s[0..|Text(b, body)|] == Text(b, body);
    BalancedPasses(b, body, s, 0, |Text(b, body)|);
  }

  // ----- What the scanner stops behind is balanced -----

  lemma {:induction false} CommentEndParts(s: string, i: nat)
    requires i <= |s|
    ensures '\n' !in s[i..CommentEnd(s, i)]
    ensures CommentEnd(s, i) < |s| ==> s[CommentEnd(s, i)] == '\n'
    decreases |s| - i
  {
    if i < |s| && s[i] != '\n' {
      CommentEndParts(s, i + 1);
      assert s[i..CommentEnd(s, i)] == [s[i]] + s[i + 1..CommentEnd(s, i + 1)];
    }
  }

  lemma {:induction false} StringEndParts(s: string, i: nat, q: Quote) returns (units: seq<Unit>)
    requires IsQuote(q.c) && StringEnd(s, i, q).Some?
    ensures ClosesAtEnd(q, units) && At(s, i, UnitsText(units) + q.Text())
    ensures StringEnd(s, i, q) == Some(i + |UnitsText(units)| + q.Len())
    decreases |s| - i
  {
    if s[i] != '\\' && Matches(q, s, i) {
      units := [];
      AtQuote(s, i, q);
      assert UnitsText(units) + q.Text() == q.Text();
    } else {
      var u := if s[i] == '\\' then Esc(s[i + 1]) else Ch(s[i]);
      var rest := StringEndParts(s, i + |UnitText(u)|, q);
      units := [u] + rest;
      UnitAt(s, i, u);
      UnitPrepended(s, i, q, u, rest);
    }
  }

  lemma UnitPrepended(s: string, i: nat, q: Quote, u: Unit, rest: seq<Unit>)
    requires At(s, i, UnitText(u)) && At(s, i + |UnitText(u)|, UnitsText(rest) + q.Text()) && ClosesAtEnd(q, rest)
    requires u.Ch? ==> u.c != '\\' && !Matches(q, s, i)
    ensures ClosesAtEnd(q, [u] + rest) && At(s, i, UnitsText([u] + rest) + q.Text())
    ensures |UnitsText([u] + rest)| == |UnitText(u)| + |UnitsText(rest)|
  {
    assert ([u] + rest)[1..] == rest;
    UnitsAt(s, i, q, u, rest);
  }

  /** Main result the other way. Whatever the scanner stops behind is balanced text. */
  lemma {:induction false} ScannedBalanced(b: Brackets, s: string, i: nat) returns (body: Body)
    requires IsBracket(b) && Scan(b, s, i, 1).Some?
    ensures At(s, i, Text(b, body)) && i + |Text(b, body)| == Scan(b, s, i, 1).value
    ensures Balanced(b, body, Some(b.close))
    decreases |s| - i
  {
    if s[i] == '#' {
      body := CommentFound(b, s, i);
    } else if IsQuote(s[i]) {
      body := LiteralFound(b, s, i);
    } else if s[i] == b.open {
      body := NestedFound(b, s, i);
    } else if s[i] == b.close {
      body := End;
    } else {
      PlainPasses(b, s, i, s[i]);
      var rest := ScannedBalanced(b, s, i + 1);
      body := Plain(s[i], rest);
      PlainAt(b, s, i, s[i], rest);
    }
  }

  /** Where a nested block that the scanner enters at `i` closes. */
  lemma NestedEnd(b: Brackets, s: string, i: nat) returns (e: nat)
    requires IsBracket(b) && Scan(b, s, i, 1).Some? && s[i] == b.open
    ensures i < e < |s| && s[e] == b.close && Scan(b, s, i + 1, 1) == Some(e)
    ensures Scan(b, s, e + 1, 1) == Scan(b, s, i, 1)
  {
    BracketScanned(b, s, i, 1);
    DepthSplit(b, s, i + 1, 1, 1);
    e := Scan(b, s, i + 1, 1).value;
    ScanStopsAtClose(b, s, i + 1, 1);
  }

  lemma {:induction false} NestedFound(b: Brackets, s: string, i: nat) returns (body: Body)
    requires IsBracket(b) && Scan(b, s, i, 1).Some? && s[i] == b.open
    ensures At(s, i, Text(b, body)) && i + |Text(b, body)| == Scan(b, s, i, 1).value
    ensures Balanced(b, body, Some(b.close))
    decreases |s| - i, 0
  {
    var e := NestedEnd(b, s, i);
    var inner := ScannedBalanced(b, s, i + 1);
    var rest := ScannedBalanced(b, s, e + 1);
    body := Nested(inner, rest);
    NestedAt(b, s, i, inner, rest);
  }

  lemma {:induction false} CommentFound(b: Brackets, s: string, i: nat) returns (body: Body)
    requires IsBracket(b) && Scan(b, s, i, 1).Some? && s[i] == '#'
    ensures At(s, i, Text(b, body)) && i + |Text(b, body)| == Scan(b, s, i, 1).value
    ensures Balanced(b, body, Some(b.close))
    decreases |s| - i, 0
  {
    CommentEndParts(s, i + 1);
    var e := CommentEnd(s, i + 1);
    assert Scan(b, s, i, 1) == Scan(b, s, e, 1);
    assert TokenAt(b, s, e) == Some(Token(e + 1, 0));
    var rest := ScannedBalanced(b, s, e + 1);
    var text := s[i + 1..e];
    body := Comment(text, rest);
    CommentAt(b, s, i, text, rest);
  }

  lemma {:induction false} LiteralFound(b: Brackets, s: string, i: nat) returns (body: Body)
    requires IsBracket(b) && Scan(b, s, i, 1).Some? && IsQuote(s[i])
    ensures At(s, i, Text(b, body)) && i + |Text(b, body)| == Scan(b, s, i, 1).value
    ensures Balanced(b, body, Some(b.close))
    decreases |s| - i, 0
  {
    var q := QuoteAt(s, i);
    var units := StringEndParts(s, i + q.Len(), q);
    var e := i + 2 * q.Len() + |UnitsText(units)|;
    assert Scan(b, s, i, 1) == Scan(b, s, e, 1) by {
      assert TokenAt(b, s, i) == Some(Token(e, 0));
    }
    var rest := ScannedBalanced(b, s, e);
    body := Literal(q, units, rest);
    ScanStopsAtClose(b, s, e, 1);
    LiteralFits(b, s, i, q, units, rest, e);
  }

  lemma LiteralFits(b: Brackets, s: string, i: nat, q: Quote, units: seq<Unit>, rest: Body, e: nat)
    requires i < |s| && IsQuote(s[i]) && q == QuoteAt(s, i) && e == i + 2 * q.Len() + |UnitsText(units)|
    requires At(s, i + q.Len(), UnitsText(units) + q.Text()) && ClosesAtEnd(q, units)
    requires At(s, e, Text(b, rest)) && Balanced(b, rest, Some(b.close))
    requires CharAt(s, e + |Text(b, rest)|) == Some(b.close)
    ensures At(s, i, Text(b, Literal(q, units, rest))) && Balanced(b, Literal(q, units, rest), Some(b.close))
    ensures i + |Text(b, Literal(q, units, rest))| == e + |Text(b, rest)|
  {
    LiteralAt(b, s, i, q, units, rest);
    EmptyLiteral(s, i, q, units);
  }

  lemma EmptyLiteral(s: string, i: nat, q: Quote, units: seq<Unit>)
    requires i < |s| && q == QuoteAt(s, i) && At(s, i + q.Len(), UnitsText(units) + q.Text())
    ensures !q.triple && units == [] ==> CharAt(s, i + 2) != Some(q.c)
  {
    if !q.triple && units == [] {
      assert UnitsText(units) + q.Text() == q.Text();
      AtQuote(s, i + 1, q);
    }
  }

  /** Together: the scanner stops at `n` exactly when a balanced body ends there and the
      closing bracket follows. */
  lemma ScanIffBalanced(b: Brackets, s: string, n: nat)
    requires IsBracket(b) && n < |s|
    ensures Scan(b, s, 0, 1) == Some(n) <==>
              s[n] == b.close && exists body :: Balanced(b, body, Some(b.close)) && Text(b, body) == s[..n]
  {
    if Scan(b, s, 0, 1) == Some(n) {
      var body := ScannedBalanced(b, s, 0);
      ScanStopsAtClose(b, s, 0, 1);
      assert s[0..n] == s[..n];
    }
    if s[n] == b.close {
      forall body | Balanced(b, body, Some(b.close)) && Text(b, body) == s[..n] ensures Scan(b, s, 0, 1) == Some(n) {
        assert s[0..n] == s[..n];
        BalancedPasses(b, body, s, 0, |Text(b, body)|);
      }
    }
  }

  // ----- The characters written out -----

  /** A brace in a literal does not count, whichever of the two quotes encloses it, and a
      backslash takes its meaning from the quote behind it. */
  lemma QuotesWrittenOut(q: char, inside: string, rest: string)
    requires q == '"' || q == '\''
    requires inside != "" && q !in inside && '\\' !in inside
    ensures Scan(BRACES, [q] + inside + [q] + "}" + rest, 0, 1) == Some(|inside| + 2)
    ensures Scan(BRACES, [q] + (['\\', q] + inside) + [q] + "}" + rest, 0, 1) == Some(|inside| + 4)
  {
    var quote, units := Quote(q, false), Chars(inside);
    CharsClose(quote, inside);
    LiteralSkipped(q, units, rest);
    assert UnitsText([Esc(q)] + units) == ['\\', q] + inside by { assert ([Esc(q)] + units)[1..] == units; }
    LiteralSkipped(q, [Esc(q)] + units, rest);
  }

  lemma LiteralSkipped(q: char, units: seq<Unit>, rest: string)
    requires IsQuote(q) && units != [] && ClosesAtEnd(Quote(q, false), units)
    ensures Scan(BRACES, [q] + UnitsText(units) + [q] + "}" + rest, 0, 1) == Some(|UnitsText(units)| + 2)
  {
    var body := Literal(Quote(q, false), units, End);
    assert Text(BRACES, body) == [q] + UnitsText(units) + [q];
    ScanStopsBehindBody(BRACES, body, rest);
  }

  /** Nor does one in a comment. */
  lemma CommentsWrittenOut(inside: string, rest: string)
    requires '\n' !in inside
    ensures Scan(BRACES, ['#'] + (inside + ['\n']) + ['}'] + rest, 0, 1) == Some(|inside| + 2)
  {
    var body := Comment(inside, End);
    assert Text(BRACES, End) == [];
    assert ['\n'] + Text(BRACES, End) == ['\n'];
    assert Text(BRACES, body) == ['#'] + (inside + ['\n']);
    ScanStopsBehindBody(BRACES, body, rest);
  }

  /** Outside, each opening brace or parenthesis needs its own closing one. */
  lemma NestingWrittenOut(rest: string)
    ensures Scan(BRACES, ['{', '}'] + ['}'] + rest, 0, 1) == Some(2)
    ensures Scan(PARENS, ['(', ')'] + [')'] + rest, 0, 1) == Some(2)
  {
    PairSkipped(BRACES, rest);
    PairSkipped(PARENS, rest);
  }

  lemma PairSkipped(b: Brackets, rest: string)
    requires IsBracket(b)
    ensures Scan(b, [b.open, b.close] + [b.close] + rest, 0, 1) == Some(2)
  {
    var body := Nested(End, End);
    assert Text(b, End) == [];
    assert Text(b, body) == [b.open, b.close];
    ScanStopsBehindBody(b, body, rest);
  }

  function Chars(s: string): seq<Unit> {
    if s == "" then [] else [Ch(s[0])] + Chars(s[1..])
  }

  lemma {:induction false} CharsClose(q: Quote, s: string)
    requires !q.triple && q.c !in s && '\\' !in s
    ensures UnitsText(Chars(s)) == s && ClosesAtEnd(q, Chars(s)) && (Chars(s) == [] <==> s == "")
  {
    if s != "" {
      CharsClose(q, s[1..]);
      assert Chars(s)[1..] == Chars(s[1..]) && Chars(s)[0] == Ch(s[0]);
      assert UnitsText(Chars(s)) == [s[0]] + s[1..];
    }
  }

}
