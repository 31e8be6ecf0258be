/** The string-aware bracket scanners of the legacy parser (`src/indexer/parser_python.py`). */
module BraceScan {
  import opened Common

  datatype Brackets = Brackets(open: char, close: char)

  const BRACES: Brackets := Brackets('{', '}')
  const PARENS: Brackets := Brackets('(', ')')

  /** The delimiter of a string literal: one quote character, or three. */
  datatype Quote = Quote(c: char, triple: bool) {
    function Len(): nat {
      if triple then 3 else 1
    }

    function Text(): (s: string)
      ensures |s| == Len()
    {
      if triple then [c, c, c] else [c]
    }
  }

  predicate IsQuote(c: char) {
    c == '"' || c == '\''
  }

  /** A pair of brackets that no literal or comment starts or ends with. */
  predicate IsBracket(b: Brackets) {
    b.open != b.close && !IsMark(b.open) && !IsMark(b.close)
  }

  predicate IsMark(c: char) {
    c == '#' || IsQuote(c) || c == '\\' || c == '\n'
  }

  // ----- Tokens -----

  /** Where a comment ends that `i` lies in: at a newline or the end of the text. */
  function CommentEnd(s: string, i: nat): (e: nat)
    requires i <= |s|
    ensures i <= e <= |s|
    decreases |s| - i
  {
    if i == |s| || s[i] == '\n' then i else CommentEnd(s, i + 1)
  }

  /** The delimiter stands at `i`. */
  predicate Matches(q: Quote, s: string, i: nat) {
    i + q.Len() <= |s| && s[i] == q.c && (q.triple ==> s[i + 1] == q.c && s[i + 2] == q.c)
  }

  /** Behind the closing delimiter of the literal that `i` lies in. */
  function StringEnd(s: string, i: nat, q: Quote): (e: Option<nat>)
    ensures e.Some? ==> i + q.Len() <= e.value <= |s|
    decreases |s| - i
  {
    if i >= |s| then None
    else if s[i] == '\\' then StringEnd(s, i + 2, q)
    else if Matches(q, s, i) then Some(i + q.Len())
    else StringEnd(s, i + 1, q)
  }

  /** The delimiter a literal at `i` opens with. */
  function QuoteAt(s: string, i: nat): Quote
    requires i < |s|
  {
    Quote(s[i], i + 3 <= |s| && s[i + 1] == s[i] && s[i + 2] == s[i])
  }

  /** What the scanner passes over in one go: where it goes on, and the change of depth. */
  datatype Token = Token(end: nat, delta: int)

  /** The token at `i`; none at the end and for a literal that never closes. */
  function TokenAt(b: Brackets, s: string, i: nat): (t: Option<Token>)
    ensures t.Some? ==> i < t.value.end <= |s| && -1 <= t.value.delta <= 1
  {
    if i >= |s| then None
    else if s[i] == '#' then Some(Token(CommentEnd(s, i + 1), 0))
    else if IsQuote(s[i]) then
      var e := StringEnd(s, i + QuoteAt(s, i).Len(), QuoteAt(s, i));
      if e.None? then None else Some(Token(e.value, 0))
    else Some(Token(i + 1, if s[i] == b.open then 1 else if s[i] == b.close then -1 else 0))
  }

  /** The position of the bracket that brings the depth back to zero. */
  function Scan(b: Brackets, s: string, i: nat, depth: nat): (at: Option<nat>)
    ensures at.Some? ==> i <= at.value < |s|
    decreases |s| - i
  {
    var t := TokenAt(b, s, i);
    if t.None? then None
    else if depth + t.value.delta <= 0 then Some(i)
    else Scan(b, s, t.value.end, depth + t.value.delta)
  }

  // ----- The scanning loops -----

  method SkipComment(s: string, start: nat) returns (i: nat)
    requires start <= |s|
    ensures i == CommentEnd(s, start)
  {
    i := start;
    while i < |s| && s[i] != '\n'
      invariant i <= |s| && CommentEnd(s, i) == CommentEnd(s, start)
    {
      i := i + 1;
    }
  }

  /** `i` may pass the end when the text stops after a backslash. */
  method SkipString(s: string, start: nat, q: Quote) returns (i: nat)
    ensures var e := StringEnd(s, start, q);
            if e.Some? then i == e.value else i >= |s|
  {
    i := start;
    while i < |s|
      invariant StringEnd(s, i, q) == StringEnd(s, start, q)
    {
      if s[i] == '\\' {
        i := i + 2;
        continue;
      }
      if i + q.Len() <= |s| && s[i..i + q.Len()] == q.Text() {
        assert s[i..i + q.Len()][0] == q.c;
        assert q.triple ==> s[i..i + q.Len()][1] == q.c && s[i..i + q.Len()][2] == q.c;
        i := i + q.Len();
        return;
      }
      i := i + 1;
    }
  }

  /** The loop both scanners share. */
  method ScanFrom(b: Brackets, s: string, start: nat) returns (at: Option<nat>)
    ensures at == Scan(b, s, start, 1)
  {
    var depth := 1;
    var i := start;
    while i < |s|
      invariant depth >= 1
      invariant Scan(b, s, start, 1) == Scan(b, s, i, depth)
      decreases |s| - i
    {
      if s[i] == '#' {
        i := SkipComment(s, i + 1);
        continue;
      }
      if IsQuote(s[i]) {
        var q := QuoteAt(s, i);
        i := SkipString(s, i + q.Len(), q);
        continue;
      }
      if s[i] == b.open {
        depth := depth + 1;
      } else if s[i] == b.close {
        depth := depth - 1;
        if depth == 0 {
          return Some(i);
        }
      }
      i := i + 1;
    }
    return None;
  }

  /** `_string_aware_brace_scan`: the text before the brace that closes the block, or
      nothing when none does. */
  method StringAwareBraceScan(fragment: string) returns (r: string)
    ensures var at := Scan(BRACES, fragment, 0, 1);
            r == if at.Some? then fragment[..at.value] else ""
  {
    var at := ScanFrom(BRACES, fragment, 0);
    return if at.Some? then fragment[..at.value] else "";
  }

  /** First position from `start` on that holds `c`. */
  function Find(s: string, c: char, start: nat): (at: Option<nat>)
    requires start <= |s|
    ensures at.Some? ==> start <= at.value < |s| && s[at.value] == c
    ensures forall k :: start <= k < (if at.Some? then at.value else |s|) ==> s[k] != c
    decreases |s| - start
  {
    if start == |s| then None
    else if s[start] == c then Some(start)
    else Find(s, c, start + 1)
  }

  /** `_extract_era1_field_entry`: from the field name to the parenthesis that closes its
      `fields.type(...)` call. */
  method ExtractEra1FieldEntry(block: string, start: nat) returns (r: string)
    requires start <= |block|
    ensures var paren := Find(block, '(', start);
            var at := if paren.None? then None else Scan(PARENS, block, paren.value + 1, 1);
            r == if at.Some? then block[start..at.value + 1] else ""
  {
    var paren := Find(block, '(', start);
    if paren.None? {
      return "";
    }
    var at := ScanFrom(PARENS, block, paren.value + 1);
    return if at.Some? then block[start..at.value + 1] else "";
  }

  // ----- Depth -----

  lemma {:induction false} ScanStopsAtClose(b: Brackets, s: string, i: nat, depth: nat)
    requires IsBracket(b) && depth >= 1 && Scan(b, s, i, depth).Some?
    ensures s[Scan(b, s, i, depth).value] == b.close
    decreases |s| - i
  {
    var t := TokenAt(b, s, i).value;
    if depth + t.delta > 0 {
      ScanStopsAtClose(b, s, t.end, depth + t.delta);
    }
  }

  /** A scan from a greater depth first closes the inner levels and then, behind the
      bracket that did, the outer ones. */
  lemma {:induction false} DepthSplit(b: Brackets, s: string, i: nat, inner: nat, outer: nat)
    requires IsBracket(b) && inner >= 1 && outer >= 1
    ensures Scan(b, s, i, inner + outer) ==
            if Scan(b, s, i, inner).None? then None else Scan(b, s, Scan(b, s, i, inner).value + 1, outer)
    decreases |s| - i
  {
    var t := TokenAt(b, s, i);
    if t.Some? && inner + t.value.delta > 0 {
      DepthSplit(b, s, t.value.end, inner + t.value.delta, outer);
    }
  }
}
