/** Small vocabulary shared by the models: options, duplicate-free sequences and
    the pigeonhole principle. */
module Common {

  datatype Option<+T> = None | Some(value: T)

  datatype Result<+T, +E> = Ok(value: T) | Err(error: E)

  /** The elements of a sequence. */
  function Elems<T>(s: seq<T>): set<T> {
    set x | x in s
  }

  lemma ElemsConcat<T>(a: seq<T>, b: seq<T>)
    ensures Elems(a + b) == Elems(a) + Elems(b)
  {
    forall x | x in Elems(a) + Elems(b) ensures x in a + b {
      if x in a {
        var i :| 0 <= i < |a| && a[i] == x;
        assert (a + b)[i] == x;
      } else {
        var i :| 0 <= i < |b| && b[i] == x;
        assert (a + b)[|a| + i] == x;
      }
    }
  }

  /** A nonempty sequence split at its last element. */
  lemma SplitLast<T>(s: seq<T>)
    requires s != []
    ensures s == s[..|s| - 1] + [s[|s| - 1]]
    ensures Elems(s) == Elems(s[..|s| - 1]) + {s[|s| - 1]}
  {
  }

  /** No element occurs twice. */
  ghost predicate NoDup<T>(s: seq<T>) {
    forall i {:trigger s[..i]} :: 0 <= i < |s| ==> s[i] !in s[..i]
  }

  lemma NoDupIndices<T>(s: seq<T>)
    ensures NoDup(s) <==> forall i, j :: 0 <= i < j < |s| ==> s[i] != s[j]
  {
    if NoDup(s) {
      forall i, j | 0 <= i < j < |s| ensures s[i] != s[j] {
        assert s[j] !in s[..j];
        assert s[..j][i] == s[i];
      }
    }
  }

  lemma NoDupAppend<T>(s: seq<T>, x: T)
    ensures NoDup(s + [x]) <==> NoDup(s) && x !in Elems(s)
    ensures Elems(s + [x]) == Elems(s) + {x}
  {
    var t := s + [x];
    SplitLast(t);
    assert t[..|s|] == s;
    forall i | 0 <= i < |s| ensures t[..i] == s[..i] {
    }
  }

  /** A nonempty duplicate-free sequence without its last element. */
  lemma NoDupFront<T>(s: seq<T>)
    requires s != []
    ensures NoDup(s) <==> NoDup(s[..|s| - 1]) && s[|s| - 1] !in Elems(s[..|s| - 1])
    ensures Elems(s) == Elems(s[..|s| - 1]) + {s[|s| - 1]}
  {
    SplitLast(s);
    NoDupAppend(s[..|s| - 1], s[|s| - 1]);
  }

  lemma {:induction false} NoDupConcat<T>(a: seq<T>, b: seq<T>)
    requires NoDup(a) && NoDup(b) && Elems(a) !! Elems(b)
    ensures NoDup(a + b) && Elems(a + b) == Elems(a) + Elems(b)
  {
    if b == [] {
      assert a + b == a;
    } else {
      var front, x := b[..|b| - 1], b[|b| - 1];
      NoDupFront(b);
      NoDupConcat(a, front);
      NoDupAppend(a + front, x);
      assert a + b == a + front + [x] by { SplitLast(b); }
    }
  }

  lemma NoDupTail<T>(s: seq<T>)
    requires NoDup(s) && s != []
    ensures NoDup(s[1..]) && Elems(s[1..]) == Elems(s) - {s[0]}
  {
    NoDupIndices(s);
    NoDupIndices(s[1..]);
    assert s == [s[0]] + s[1..];
    ElemsConcat([s[0]], s[1..]);
  }

  /** A duplicate-free sequence is as long as its set of elements. */
  lemma {:induction false} NoDupCard<T>(s: seq<T>)
    requires NoDup(s)
    ensures |Elems(s)| == |s|
  {
    if s != [] {
      NoDupFront(s);
      NoDupCard(s[..|s| - 1]);
    }
  }

  lemma {:induction false} SubsetCard<T>(a: set<T>, b: set<T>)
    requires a <= b
    ensures |a| <= |b|
    ensures |a| == |b| ==> a == b
  {
    if a != {} {
      var x :| x in a;
      SubsetCard(a - {x}, b - {x});
    }
  }

  /** Pigeonhole: a sequence longer than the set it draws from repeats an element. */
  lemma Pigeonhole<T>(s: seq<T>, u: set<T>)
    requires Elems(s) <= u
    requires |s| > |u|
    ensures exists i, j :: 0 <= i < j < |s| && s[i] == s[j]
  {
    NoDupIndices(s);
    if NoDup(s) {
      NoDupCard(s);
      SubsetCard(Elems(s), u);
      assert false;
    }
  }
}
