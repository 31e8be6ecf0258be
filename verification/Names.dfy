/** Names, the order in which Python's `sorted` puts them, and sorting by it. */
module Names {
  import opened Common

  datatype Name = Name(text: string)

  predicate Le(a: Name, b: Name) {
    LeText(a.text, b.text)
  }

  /** Lexicographic order by code point. */
  predicate LeText(a: string, b: string) {
    a == [] || (b != [] && (a[0] < b[0] || (a[0] == b[0] && LeText(a[1..], b[1..]))))
  }

  lemma {:induction false} LeRefl(a: string)
    ensures LeText(a, a)
  {
    if a != [] { LeRefl(a[1..]); }
  }

  lemma {:induction false} LeTotal(a: string, b: string)
    ensures LeText(a, b) || LeText(b, a)
  {
    if a != [] && b != [] { LeTotal(a[1..], b[1..]); }
  }

  lemma {:induction false} LeAntisym(a: string, b: string)
    requires LeText(a, b) && LeText(b, a)
    ensures a == b
  {
    if a != [] && b != [] {
      LeAntisym(a[1..], b[1..]);
      assert a == [a[0]] + a[1..] && b == [b[0]] + b[1..];
    }
  }

  lemma {:induction false} LeTrans(a: string, b: string, c: string)
    requires LeText(a, b) && LeText(b, c)
    ensures LeText(a, c)
  {
    if a != [] && a[0] == b[0] == c[0] { LeTrans(a[1..], b[1..], c[1..]); }
  }

  ghost predicate Ascending(s: seq<Name>) {
    forall i, j {:trigger Le(s[i], s[j])} :: 0 <= i < j < |s| ==> Le(s[i], s[j])
  }

  /** `sorted` of a list: keeps duplicates. */
  function SortList(s: seq<Name>): (r: seq<Name>)
    ensures multiset(r) == multiset(s)
    ensures Ascending(r)
  {
    if s == [] then []
    else
      assert s == s[..|s| - 1] + [s[|s| - 1]];
      Insert(s[|s| - 1], SortList(s[..|s| - 1]))
  }

  function Insert(x: Name, s: seq<Name>): (r: seq<Name>)
    requires Ascending(s)
    ensures multiset(r) == multiset(s) + multiset{x}
    ensures Ascending(r)
  {
    if s == [] then [x]
    else
      assert s == [s[0]] + s[1..];
      if Le(x, s[0]) then
        BelowAll(x, s);
        [x] + s
      else
        var r := Insert(x, s[1..]);
        HeadStaysLeast(x, s, r);
        [s[0]] + r
  }

  lemma BelowAll(x: Name, s: seq<Name>)
    requires Ascending(s) && s != [] && Le(x, s[0])
    ensures Ascending([x] + s)
  {
    forall i | 0 <= i < |s| ensures Le(x, s[i]) {
      if i > 0 { assert Le(s[0], s[i]); LeTrans(x.text, s[0].text, s[i].text); }
    }
  }

  lemma HeadStaysLeast(x: Name, s: seq<Name>, r: seq<Name>)
    requires Ascending(s) && s != [] && !Le(x, s[0])
    requires Ascending(r) && multiset(r) == multiset(s[1..]) + multiset{x}
    ensures Ascending([s[0]] + r)
  {
    LeTotal(x.text, s[0].text);
    forall i | 0 <= i < |r| ensures Le(s[0], r[i]) {
      assert r[i] in multiset(r);
      if r[i] != x {
        var k :| 0 <= k < |s[1..]| && s[1..][k] == r[i];
        assert Le(s[0], s[k + 1]);
      }
    }
  }

  ghost predicate IsLeast(x: Name, s: set<Name>) {
    x in s && forall y :: y in s ==> Le(x, y)
  }

  lemma {:induction false} LeastExists(s: set<Name>)
    requires s != {}
    ensures exists x :: IsLeast(x, s)
  {
    var x :| x in s;
    LeRefl(x.text);
    if s == {x} {
      assert IsLeast(x, s);
    } else {
      LeastExists(s - {x});
      var y :| IsLeast(y, s - {x});
      LeTotal(x.text, y.text);
      if Le(y, x) {
        assert IsLeast(y, s);
      } else {
        forall z | z in s ensures Le(x, z) {
          if z != x { assert z in s - {x}; LeTrans(x.text, y.text, z.text); }
        }
        assert IsLeast(x, s);
      }
    }
  }

  ghost function Least(s: set<Name>): (x: Name)
    requires s != {}
    ensures IsLeast(x, s)
  {
    LeastExists(s);
    var x :| IsLeast(x, s);
    x
  }

  /** `sorted` of a set. */
  ghost function SortedSet(s: set<Name>): (r: seq<Name>)
    ensures Elems(r) == s
    ensures NoDup(r) && Ascending(r)
  {
    if s == {} then []
    else
      var x := Least(s);
      var r := SortedSet(s - {x});
      NoDupConcat([x], r);
      assert forall i :: 0 <= i < |r| ==> r[i] in Elems(r);
      [x] + r
  }

  /** There is only one way to list a set in ascending order. */
  lemma {:induction false} AscendingUnique(r: seq<Name>)
    requires NoDup(r) && Ascending(r)
    ensures r == SortedSet(Elems(r))
  {
    if r != [] {
      NoDupTail(r);
      FirstIsLeast(r);
      AscendingUnique(r[1..]);
    }
  }

  lemma FirstIsLeast(r: seq<Name>)
    requires Ascending(r) && r != []
    ensures Elems(r) != {} && Least(Elems(r)) == r[0]
  {
    var s := Elems(r);
    assert r[0] in s;
    var x := Least(s);
    var i :| 0 <= i < |r| && r[i] == x;
    if i > 0 { assert Le(r[0], r[i]); LeAntisym(r[0].text, x.text); }
  }

  /** The order is that of a dictionary: the shorter text first when it begins the longer one,
      otherwise the text with the smaller character where they first differ. */
  lemma {:induction false} LeTextIff(a: string, b: string)
    ensures LeText(a, b) <==>
              a <= b || exists i :: 0 <= i < |a| && i < |b| && a[..i] == b[..i] && a[i] < b[i]
  {
    if a != [] && b != [] && a[0] == b[0] {
      var s, t := a[1..], b[1..];
      LeTextIff(s, t);
      assert a == [a[0]] + s && b == [b[0]] + t;
      if i :| 0 <= i < |s| && i < |t| && s[..i] == t[..i] && s[i] < t[i] {
        assert a[..i + 1] == [a[0]] + s[..i] && b[..i + 1] == [b[0]] + t[..i] && a[i + 1] < b[i + 1];
      }
      if i :| 0 <= i < |a| && i < |b| && a[..i] == b[..i] && a[i] < b[i] {
        assert i > 0 && s[..i - 1] == a[..i][1..] && t[..i - 1] == b[..i][1..] && s[i - 1] < t[i - 1];
      }
    } else if a != [] && b != [] && a[0] < b[0] {
      assert a[..0] == b[..0];
    }
  }
}
