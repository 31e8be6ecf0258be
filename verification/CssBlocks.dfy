/** Cutting a `{...}` block out of a stylesheet (`src/indexer/parser_css.py`): braces are
    counted, literals and comments are not looked at. */
module CssBlocks {
  /** Opening less closing braces of `text` from `a` up to `b`. */
  function Depth(text: string, a: nat, b: nat): int
    requires a <= b <= |text|
    decreases b
  {
    if a == b then 0 else Depth(text, a, b - 1) + Change(text[b - 1])
  }

  function Change(c: char): int {
    if c == '{' then 1 else if c == '}' then -1 else 0
  }

  /** The text up to `e` ends with a closing brace that leaves no brace open. */
  predicate Closes(text: string, start: nat, e: nat) {
    start < e <= |text| && text[e - 1] == '}' && Depth(text, start, e) == 0
  }

  /** `_extract_block`: up to the first brace that closes, or all that is left. */
  method ExtractBlock(text: string, start: nat) returns (block: string, end: nat)
    requires start <= |text|
    ensures start <= end <= |text| && block == text[start..end]
    ensures forall e :: start < e < end ==> !Closes(text, start, e)
    ensures Closes(text, start, end) || (end == |text| && !exists e :: Closes(text, start, e))
  {
    var depth := 0;
    var i := start;
    while i < |text|
      invariant start <= i <= |text| && depth == Depth(text, start, i)
      invariant forall e :: start < e <= i ==> !Closes(text, start, e)
    {
      if text[i] == '{' {
        depth := depth + 1;
      } else if text[i] == '}' {
        depth := depth - 1;
        if depth == 0 {
          assert Closes(text, start, i + 1);
          return text[start..i + 1], i + 1;
        }
      }
      i := i + 1;
    }
    return text[start..], |text|;
  }

  // ----- Blocks as nested text -----

  /** Text whose braces match. */
  datatype Nest =
    | End
    | Plain(c: char, rest: Nest)
    | Block(inner: Nest, rest: Nest)

  predicate NoBraces(n: Nest) {
    match n
    case End => true
    case Plain(c, rest) => Change(c) == 0 && NoBraces(rest)
    case Block(inner, rest) => NoBraces(inner) && NoBraces(rest)
  }

  function Text(n: Nest): string {
    match n
    case End => []
    case Plain(c, rest) => [c] + Text(rest)
    case Block(inner, rest) => ['{'] + (Text(inner) + (['}'] + Text(rest)))
  }

  /** From `i` to `e` the text is that of `n`. */
  predicate Stands(text: string, i: nat, e: nat, n: Nest) {
    i <= e <= |text| && text[i..e] == Text(n) && NoBraces(n)
  }

  lemma StandsParts(text: string, i: nat, e: nat, n: Nest) returns (m: nat)
    requires Stands(text, i, e, n)
    ensures match n
            case End => e == i
            case Plain(c, rest) => i < e && text[i] == c && Change(c) == 0 && Stands(text, i + 1, e, rest)
            case Block(inner, rest) =>
              i < m < e && text[i] == '{' && Stands(text, i + 1, m, inner)
              && text[m] == '}' && Stands(text, m + 1, e, rest)
  {
    m := i;
    match n
    case End =>
    case Plain(c, rest) =>
      assert text[i..e][0] == c && text[i..e][1..] == Text(rest);
      assert text[i + 1..e] == text[i..e][1..];
    case Block(inner, rest) =>
      var t := text[i..e];
      m := i + 1 + |Text(inner)|;
      var behind := t[1..][|Text(inner)|..];
      assert t[0] == '{' && t[1..] == Text(inner) + (['}'] + Text(rest));
      assert t[1..][..|Text(inner)|] == Text(inner) && behind == ['}'] + Text(rest);
      assert behind[0] == '}' && behind[1..] == Text(rest);
      assert text[i + 1..m] == t[1..][..|Text(inner)|] && text[m] == behind[0] && text[m + 1..e] == behind[1..];
  }

  lemma StandsPlain(text: string, i: nat, e: nat, rest: Nest)
    requires i < e && Stands(text, i + 1, e, rest) && Change(text[i]) == 0
    ensures Stands(text, i, e, Plain(text[i], rest))
  {
    assert text[i..e] == [text[i]] + text[i + 1..e];
  }

  lemma StandsBlock(text: string, i: nat, m: nat, e: nat, inner: Nest, rest: Nest)
    requires i < m < e && Stands(text, i + 1, m, inner) && Stands(text, m + 1, e, rest)
    requires text[i] == '{' && text[m] == '}'
    ensures Stands(text, i, e, Block(inner, rest))
  {
    assert text[i..e] == [text[i]] + (text[i + 1..m] + ([text[m]] + text[m + 1..e]));
  }

  /** Across nested text the depth comes back to where it was and never falls below. */
  lemma {:induction false} NestDepth(text: string, start: nat, i: nat, e: nat, n: Nest)
    requires start <= i && Stands(text, i, e, n)
    ensures Depth(text, start, e) == Depth(text, start, i)
    ensures forall k :: i <= k <= e ==> Depth(text, start, k) >= Depth(text, start, i)
    decreases n
  {
    var m := StandsParts(text, i, e, n);
    match n
    case End =>
    case Plain(c, rest) => NestDepth(text, start, i + 1, e, rest);
    case Block(inner, rest) =>
      NestDepth(text, start, i + 1, m, inner);
      NestDepth(text, start, m + 1, e, rest);
  }

  /** Text across which the depth comes back to `depth` and never falls below is nested. */
  lemma {:induction false} NestFound(text: string, start: nat, i: nat, e: nat, depth: int) returns (n: Nest)
    requires start <= i <= e <= |text| && Depth(text, start, e) == Depth(text, start, i) == depth
    requires forall k :: i <= k <= e ==> Depth(text, start, k) >= depth
    ensures Stands(text, i, e, n)
    decreases e - i
  {
    if i == e {
      n := End;
    } else if text[i] == '{' {
      assert Depth(text, start, i + 1) == Depth(text, start, i) + 1;
      var m := Return(text, start, i + 1, e);
      var inner := NestFound(text, start, i + 1, m, depth + 1);
      var rest := NestFound(text, start, m + 1, e, depth);
      n := Block(inner, rest);
      StandsBlock(text, i, m, e, inner, rest);
    } else {
      assert Depth(text, start, i + 1) == Depth(text, start, i) + Change(text[i]);
      var rest := NestFound(text, start, i + 1, e, depth);
      n := Plain(text[i], rest);
      StandsPlain(text, i, e, rest);
    }
  }

  /** The brace at which the depth first falls below what it is at `i`. */
  lemma Return(text: string, start: nat, i: nat, e: nat) returns (m: nat)
    requires start <= i <= e <= |text| && Depth(text, start, e) < Depth(text, start, i)
    ensures i <= m < e && text[m] == '}' && Depth(text, start, m) == Depth(text, start, i)
    ensures Depth(text, start, m + 1) == Depth(text, start, i) - 1
    ensures forall k :: i <= k <= m ==> Depth(text, start, k) >= Depth(text, start, i)
  {
    m := i;
    while Depth(text, start, m + 1) >= Depth(text, start, i)
      invariant i <= m < e && Depth(text, start, m) >= Depth(text, start, i)
      invariant forall k :: i <= k <= m ==> Depth(text, start, k) >= Depth(text, start, i)
      decreases e - m
    {
      m := m + 1;
    }
  }

  /** Braces at both ends with the text of `n` between them. */
  predicate Encloses(text: string, start: nat, e: nat, n: Nest) {
    start + 1 < e <= |text| && text[start] == '{' && text[e - 1] == '}' && Stands(text, start + 1, e - 1, n)
  }

  /** Main result. Where a block starts, it ends at `e` exactly when nested text lies between
      its braces. */
  lemma BlockIffNested(text: string, start: nat, e: nat)
    requires start < e <= |text| && text[start] == '{'
    ensures (Closes(text, start, e) && forall k :: start < k < e ==> !Closes(text, start, k)) <==>
              exists n :: Encloses(text, start, e, n)
  {
    assert Depth(text, start, start + 1) == 1;
    if Closes(text, start, e) && forall k :: start < k < e ==> !Closes(text, start, k) {
      OpenInside(text, start, e - 1);
      assert Depth(text, start, e) == Depth(text, start, e - 1) + Change(text[e - 1]);
      var n := NestFound(text, start, start + 1, e - 1, 1);
      assert Encloses(text, start, e, n);
    }
    if n :| Encloses(text, start, e, n) {
      NestDepth(text, start, start + 1, e - 1, n);
      assert Depth(text, start, e) == Depth(text, start, e - 1) + Change(text[e - 1]);
    }
  }

  lemma {:induction false} OpenInside(text: string, start: nat, e: nat)
    requires start < e <= |text| && Depth(text, start, start + 1) == 1
    requires forall k :: start < k <= e ==> !Closes(text, start, k)
    ensures forall k :: start < k <= e ==> Depth(text, start, k) >= 1
    decreases e
  {
    if e > start + 1 {
      OpenInside(text, start, e - 1);
      assert Depth(text, start, e) == Depth(text, start, e - 1) + Change(text[e - 1]);
      assert !Closes(text, start, e);
    }
  }
}
