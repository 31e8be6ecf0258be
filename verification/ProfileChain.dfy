/** Parent pointers of profiles (`src/db/repo_registry.py`): chains that end, and what
    adding, removing and redirecting a pointer does to them. */
module ProfileChain {
  import opened Common
  import opened Names

  datatype Profile = Profile(name: Name, version: Name, description: Option<Name>, parent: Option<int>)

  type Profiles = map<int, Profile>

  /** Following parents from `id` reaches a profile without parent in at most `n` steps,
      and every profile met on the way exists. */
  ghost predicate Ends(t: Profiles, id: int, n: nat)
    decreases n
  {
    id in t && (t[id].parent.None? || (n > 0 && Ends(t, t[id].parent.value, n - 1)))
  }

  ghost predicate Rooted(t: Profiles, id: int) {
    exists n: nat :: Ends(t, id, n)
  }

  /** Every chain of parents ends: parents exist and none is its own ancestor. */
  ghost predicate Acyclic(t: Profiles) {
    forall id :: id in t ==> Rooted(t, id)
  }

  ghost function ChainWithin(t: Profiles, id: int, n: nat): seq<int>
    requires Ends(t, id, n)
    decreases n
  {
    if t[id].parent.None? then [id] else [id] + ChainWithin(t, t[id].parent.value, n - 1)
  }

  /** The profile, its parent, and so on up to the root. */
  ghost function Chain(t: Profiles, id: int): seq<int>
    requires Rooted(t, id)
  {
    var n: nat :| Ends(t, id, n);
    ChainWithin(t, id, n)
  }

  lemma {:induction false} ChainUnique(t: Profiles, id: int, n: nat, m: nat)
    requires Ends(t, id, n) && Ends(t, id, m)
    ensures ChainWithin(t, id, n) == ChainWithin(t, id, m)
    decreases n
  {
    if t[id].parent.Some? {
      ChainUnique(t, t[id].parent.value, n - 1, m - 1);
    }
  }

  /** A chain is the profile followed by the chain of its parent. */
  lemma ChainUnfold(t: Profiles, id: int)
    requires Rooted(t, id)
    ensures id in t
    ensures t[id].parent.Some? ==> Rooted(t, t[id].parent.value)
    ensures Chain(t, id) == if t[id].parent.None? then [id] else [id] + Chain(t, t[id].parent.value)
  {
    var n: nat :| Ends(t, id, n) && Chain(t, id) == ChainWithin(t, id, n);
    if t[id].parent.None? {
      assert ChainWithin(t, id, n) == [id];
    } else {
      var p := t[id].parent.value;
      assert Ends(t, p, n - 1);
      assert Rooted(t, p);
      var m: nat :| Ends(t, p, m) && Chain(t, p) == ChainWithin(t, p, m);
      ChainUnique(t, p, n - 1, m);
      assert ChainWithin(t, id, n) == [id] + ChainWithin(t, p, n - 1);
    }
  }

  /** What lies above a member of a chain is that member's own chain. */
  lemma {:induction false} ChainSuffix(t: Profiles, id: int, i: nat)
    requires Rooted(t, id) && i < |Chain(t, id)|
    ensures Rooted(t, Chain(t, id)[i]) && Chain(t, Chain(t, id)[i]) == Chain(t, id)[i..]
    decreases i
  {
    ChainUnfold(t, id);
    if i > 0 {
      var p := t[id].parent.value;
      ChainSuffix(t, p, i - 1);
      assert Chain(t, id)[i..] == Chain(t, p)[i - 1..];
    }
  }

  /** A chain starts with the profile itself, goes from child to parent and ends at a root. */
  lemma {:induction false} ChainShape(t: Profiles, id: int)
    requires Rooted(t, id)
    ensures var c := Chain(t, id);
            && c != [] && c[0] == id && (forall x :: x in c ==> x in t)
            && c[|c| - 1] in t && t[c[|c| - 1]].parent.None?
            && forall i :: 0 <= i < |c| - 1 ==> c[i] in t && t[c[i]].parent == Some(c[i + 1])
    decreases |Chain(t, id)|
  {
    ChainUnfold(t, id);
    if t[id].parent.Some? {
      ChainShape(t, t[id].parent.value);
    }
  }

  /** No profile occurs twice in a chain, so a chain is no longer than the table. */
  lemma ChainNoDup(t: Profiles, id: int)
    requires Rooted(t, id)
    ensures NoDup(Chain(t, id)) && Elems(Chain(t, id)) <= t.Keys && |Chain(t, id)| <= |t|
  {
    var c := Chain(t, id);
    forall i, j | 0 <= i < j < |c| ensures c[i] != c[j] {
      ChainSuffix(t, id, i);
      ChainSuffix(t, id, j);
      assert |c[i..]| != |c[j..]|;
    }
    NoDupIndices(c);
    forall i | 0 <= i < |c| ensures c[i] in t {
      ChainSuffix(t, id, i);
      ChainUnfold(t, c[i]);
    }
    NoDupCard(c);
    SubsetCard(Elems(c), t.Keys);
  }

  /** No profile is a proper ancestor of itself. */
  lemma NoOwnAncestor(t: Profiles, id: int)
    requires Acyclic(t) && id in t && t[id].parent.Some?
    ensures t[id].parent.value in t && id !in Chain(t, t[id].parent.value)
  {
    ChainUnfold(t, id);
    var p := t[id].parent.value;
    ChainUnfold(t, p);
    ChainNoDup(t, id);
    NoDupTail(Chain(t, id));
    assert Chain(t, id)[1..] == Chain(t, p);
    assert id !in Elems(Chain(t, p));
  }

  // ----- Changes to the table -----

  /** Every profile of `t` is in `u` with the same parent. */
  ghost predicate KeepsParents(t: Profiles, u: Profiles) {
    forall id :: id in t ==> id in u && u[id].parent == t[id].parent
  }

  lemma {:induction false} EndsKept(t: Profiles, u: Profiles, id: int, n: nat)
    requires KeepsParents(t, u) && Ends(t, id, n)
    ensures Ends(u, id, n)
    decreases n
  {
    if t[id].parent.Some? {
      EndsKept(t, u, t[id].parent.value, n - 1);
    }
  }

  lemma RootedKept(t: Profiles, u: Profiles, id: int)
    requires KeepsParents(t, u) && Rooted(t, id)
    ensures Rooted(u, id)
  {
    var n: nat :| Ends(t, id, n);
    EndsKept(t, u, id, n);
  }

  /** A new profile under an existing parent. */
  lemma AddKeepsAcyclic(t: Profiles, id: int, p: Profile)
    requires Acyclic(t) && id !in t && (p.parent.Some? ==> p.parent.value in t)
    ensures Acyclic(t[id := p])
  {
    var u := t[id := p];
    forall x | x in u ensures Rooted(u, x) {
      if x != id {
        RootedKept(t, u, x);
      } else if p.parent.None? {
        assert Ends(u, id, 0);
      } else {
        RootedKept(t, u, p.parent.value);
        var n: nat :| Ends(u, p.parent.value, n);
        assert Ends(u, id, n + 1);
      }
    }
  }

  lemma {:induction false} EndsWithout(t: Profiles, id: int, x: int, n: nat)
    requires Ends(t, x, n) && x != id
    requires forall c :: c in t ==> t[c].parent != Some(id)
    ensures Ends(t - {id}, x, n)
    decreases n
  {
    if t[x].parent.Some? {
      EndsWithout(t, id, t[x].parent.value, n - 1);
    }
  }

  /** Removing a profile without children. */
  lemma RemoveKeepsAcyclic(t: Profiles, id: int)
    requires Acyclic(t) && forall c :: c in t ==> t[c].parent != Some(id)
    ensures Acyclic(t - {id})
  {
    forall x | x in t - {id} ensures Rooted(t - {id}, x) {
      var n: nat :| Ends(t, x, n);
      EndsWithout(t, id, x, n);
    }
  }

  function Redirect(t: Profiles, child: int, parent: Option<int>): Profiles
    requires child in t
  {
    t[child := t[child].(parent := parent)]
  }

  /** A chain that does not pass `child` is untouched by redirecting `child`. */
  lemma {:induction false} EndsRedirectedAway(t: Profiles, child: int, parent: Option<int>, x: int, n: nat)
    requires child in t && Ends(t, x, n) && child !in ChainWithin(t, x, n)
    ensures Ends(Redirect(t, child, parent), x, n)
    decreases n
  {
    assert x == ChainWithin(t, x, n)[0];
    if t[x].parent.Some? {
      var rest := ChainWithin(t, t[x].parent.value, n - 1);
      assert forall y :: y in rest ==> y in [x] + rest;
      EndsRedirectedAway(t, child, parent, t[x].parent.value, n - 1);
    }
  }

  lemma {:induction false} EndsThroughChild(t: Profiles, child: int, parent: Option<int>, x: int, n: nat)
    requires child in t && Ends(t, x, n) && Rooted(Redirect(t, child, parent), child)
    ensures Rooted(Redirect(t, child, parent), x)
    decreases n
  {
    var u := Redirect(t, child, parent);
    if x != child && t[x].parent.Some? {
      EndsThroughChild(t, child, parent, t[x].parent.value, n - 1);
      var m: nat :| Ends(u, t[x].parent.value, m);
      assert Ends(u, x, m + 1);
    } else if x != child {
      assert Ends(u, x, 0);
    }
  }

  /** If the chain of `x` passes `child`, any way up from `x` after the change passes it too. */
  lemma {:induction false} MustPassChild(t: Profiles, child: int, parent: Option<int>, x: int, n: nat, m: nat)
      returns (k: nat)
    requires child in t && Ends(t, x, n) && child in ChainWithin(t, x, n)
    requires Ends(Redirect(t, child, parent), x, m)
    ensures k <= m && Ends(Redirect(t, child, parent), child, k)
    decreases n
  {
    if x == child {
      k := m;
    } else {
      k := MustPassChild(t, child, parent, t[x].parent.value, n - 1, m - 1);
    }
  }

  lemma {:induction false} NeverEnds(t: Profiles, child: int, parent: int, n: nat, m: nat)
    requires child in t && Ends(t, parent, n) && child in ChainWithin(t, parent, n)
    requires Ends(Redirect(t, child, Some(parent)), child, m)
    ensures false
    decreases m
  {
    var k := MustPassChild(t, child, Some(parent), parent, n, m - 1);
    NeverEnds(t, child, parent, n, k);
  }

  /** Redirecting `child` to `parent` closes a cycle exactly when `child` is `parent` or
      one of its ancestors. */
  lemma RedirectAcyclicIff(t: Profiles, child: int, parent: int)
    requires Acyclic(t) && child in t && parent in t
    ensures Acyclic(Redirect(t, child, Some(parent))) <==> child !in Chain(t, parent)
  {
    var u := Redirect(t, child, Some(parent));
    var n: nat :| Ends(t, parent, n) && Chain(t, parent) == ChainWithin(t, parent, n);
    if child !in Chain(t, parent) {
      EndsRedirectedAway(t, child, Some(parent), parent, n);
      assert Ends(u, child, n + 1);
      forall x | x in u ensures Rooted(u, x) {
        var m: nat :| Ends(t, x, m);
        EndsThroughChild(t, child, Some(parent), x, m);
      }
    } else if Acyclic(u) {
      assert Rooted(u, child);
      var m: nat :| Ends(u, child, m);
      NeverEnds(t, child, parent, n, m);
    }
  }

  /** Clearing a parent keeps every chain finite. */
  lemma ClearKeepsAcyclic(t: Profiles, child: int)
    requires Acyclic(t) && child in t
    ensures Acyclic(Redirect(t, child, None))
  {
    var u := Redirect(t, child, None);
    assert Ends(u, child, 0);
    forall x | x in u ensures Rooted(u, x) {
      var m: nat :| Ends(t, x, m);
      EndsThroughChild(t, child, None, x, m);
    }
  }
}
