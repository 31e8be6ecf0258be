/** `RepoStore` itself: its calls read and update the rows step by step, and its
    upward and downward walks are loops. */
module RepoStoreMethods {
  import opened Common
  import opened Names
  import opened ProfileChain
  import opened RepoStore

  /** Repo rows of a profile, by ascending id. */
  function ReposBelow(repos: map<int, Repo>, profile: int, next: int): seq<int>
    decreases next
  {
    if next <= 1 then []
    else
      var r := next - 1;
      ReposBelow(repos, profile, r) + if r in repos && repos[r].profileId == profile then [r] else []
  }

  /** The repos of a list of profiles, one profile after the other. */
  function ReposOf(db: Tables, chain: seq<int>): seq<int> {
    if chain == [] then []
    else ReposOf(db, chain[..|chain| - 1]) + ReposBelow(db.repos, chain[|chain| - 1], db.nextRepo)
  }

  class Store {
    var db: Tables

    ghost predicate Valid() reads this {
      Consistent(db)
    }

    constructor ()
      ensures Valid() && db == EMPTY
    {
      db := EMPTY;
    }

    method AddProfile(name: Name, version: Name, description: Option<Name>, parent: Option<int>)
      returns (r: Result<int, Error>)
      requires Valid()
      modifies this
      ensures Valid()
      ensures (db, r) == AddedProfile(old(db), Profile(name, version, description, parent))
    {
      CallConsistent(db, Call.AddProfile(Profile(name, version, description, parent)));
      if parent.Some? {
        if parent.value !in db.profiles {
          return Err(ParentNotFound);
        }
        if db.profiles[parent.value].version != version {
          return Err(VersionMismatch);
        }
      }
      var id := db.nextProfile;
      var taken := NameUsed(db.profiles, name);
      db := db.(nextProfile := id + 1);
      if taken {
        return Err(NameTaken);
      }
      db := db.(profiles := db.profiles[id := Profile(name, version, description, parent)]);
      return Ok(id);
    }

    /** The cycle check walks upward from `parent`. It stops because chains end. */
    method ValidateParent(id: int, parent: Option<int>) returns (refusal: Option<Error>)
      requires Valid()
      ensures refusal == ParentRefusal(db.profiles, id, parent)
    {
      if parent.None? {
        return None;
      }
      if parent.value == id {
        return Some(CycleFound);
      }
      if id !in db.profiles {
        return Some(NotFound);
      }
      if parent.value !in db.profiles {
        return Some(ParentNotFound);
      }
      if db.profiles[id].version != db.profiles[parent.value].version {
        return Some(VersionMismatch);
      }
      var ancestors := WalkUp(parent.value);
      return if id in ancestors then Some(CycleFound) else None;
    }

    /** The recursive walk over `parent_profile_id`, lowest first. */
    method WalkUp(id: int) returns (chain: seq<int>)
      requires Valid() && id in db.profiles
      ensures chain == Chain(db.profiles, id)
    {
      chain := [];
      var current := Some(id);
      while current.Some?
        invariant current.Some? ==> Rooted(db.profiles, current.value)
        invariant Chain(db.profiles, id) ==
                  if current.Some? then chain + Chain(db.profiles, current.value) else chain
        decreases if current.Some? then |Chain(db.profiles, current.value)| else 0
      {
        ChainUnfold(db.profiles, current.value);
        chain := chain + [current.value];
        current := db.profiles[current.value].parent;
      }
    }

    method SetProfileParent(id: int, parent: Option<int>) returns (r: Result<bool, Error>)
      requires Valid()
      modifies this
      ensures Valid()
      ensures (db, r) == ParentSet(old(db), id, parent)
    {
      CallConsistent(db, SetParent(id, parent));
      var refusal := ValidateParent(id, parent);
      if refusal.Some? {
        return Err(refusal.value);
      }
      if id !in db.profiles {
        return Err(NotFound);
      }
      var profile := db.profiles[id];
      if profile.parent == parent {
        assert db.profiles[id := profile] == db.profiles;
        return Ok(false);
      }
      db := db.(profiles := db.profiles[id := profile.(parent := parent)]);
      return Ok(true);
    }

    /** The downward walk: one generation after the other, until none is left. */
    method DescendantOnOtherVersion(id: int, version: Name) returns (found: bool)
      requires Valid() && id in db.profiles
      ensures found <==> exists d :: IsDescendant(db.profiles, id, d) && db.profiles[d].version != version
    {
      var t := db.profiles;
      found := false;
      ghost var k := 1;
      var generation := set c | c in t && t[c].parent == Some(id);
      FirstGeneration(t, id);
      while generation != {}
        invariant k >= 1 && generation <= t.Keys
        invariant forall d :: d in t ==> (d in generation <==> AtDepth(t, id, d, k))
        invariant found <==> OtherVersionAbove(t, id, version, k)
        decreases |t| - k
      {
        DepthBounded(t, id, k, generation);
        if exists d :: d in generation && t[d].version != version {
          found := true;
        }
        NextGeneration(t, id, k);
        generation := set c | c in t && t[c].parent.Some? && t[c].parent.value in generation;
        k := k + 1;
      }
      AllDepthsSeen(t, id, k);
    }

    method UpdateProfile(id: int, name: Option<Name>, version: Option<Name>, description: Option<Name>)
      returns (r: Result<seq<Field>, Error>)
      requires Valid()
      modifies this
      ensures Valid()
      ensures (db, r) == Updated(old(db), id, name, version, description)
    {
      CallConsistent(db, Update(id, name, version, description));
      if id !in db.profiles {
        return Err(NotFound);
      }
      var current := db.profiles[id];
      var nameChanging := Changes(name, current.name);
      var versionChanging := Changes(version, current.version);
      if nameChanging || versionChanging {
        if Indexed(db, id) {
          return Err(AlreadyIndexed);
        }
      }
      if versionChanging {
        if current.parent.Some? && current.parent.value in db.profiles
           && db.profiles[current.parent.value].version != version.value {
          return Err(VersionMismatch);
        }
        var conflict := DescendantOnOtherVersion(id, version.value);
        if conflict {
          return Err(VersionMismatch);
        }
      }
      var updates: seq<Field> := [];
      var row := current;
      if nameChanging {
        updates := updates + [NameField];
        row := row.(name := name.value);
      }
      if versionChanging {
        updates := updates + [VersionField];
        row := row.(version := version.value);
      }
      if description.Some? && description != current.description {
        updates := updates + [DescriptionField];
        row := row.(description := description);
      }
      assert updates == ChangedFields(current, name, version, description);
      assert row == Edited(current, name, version, description);
      if updates == [] {
        return Ok([]);
      }
      if nameChanging && NameUsed(db.profiles, name.value) {
        return Err(NameTaken);
      }
      db := db.(profiles := db.profiles[id := row]);
      return Ok(updates);
    }

    method DeleteProfile(id: int) returns (r: Result<set<int>, Error>)
      requires Valid()
      modifies this
      ensures Valid()
      ensures (db, r) == Deleted(old(db), id)
      ensures r.Ok? ==> id !in db.profiles && SameBut(old(db).profiles, db.profiles, {id})
      ensures r.Ok? ==> forall x :: x in db.repos <==> x in old(db).repos && old(db).repos[x].profileId != id
      ensures r.Ok? ==> forall x :: x in db.repos ==> db.repos[x] == old(db).repos[x]
      ensures r.Ok? ==> r.value == old(db).repos.Keys - db.repos.Keys
    {
      DeleteOutcome(db, id);
      CallConsistent(db, Delete(id));
      var owned := set x | x in db.repos && db.repos[x].profileId == id;
      if id !in db.profiles {
        return Err(NotFound);
      }
      if HasChild(db.profiles, id) {
        return Err(HasChildren);
      }
      db := db.(profiles := db.profiles - {id}, repos := db.repos - owned);
      return Ok(owned);
    }

    /** `get_ancestor_profile_names`: self first, root last; none for an unknown name. */
    method GetAncestorProfileNames(name: Name) returns (names: seq<Name>)
      requires Valid()
      ensures names == [] <==> !NameUsed(db.profiles, name)
      ensures forall id :: id in db.profiles && db.profiles[id].name == name ==>
                && |names| == |Chain(db.profiles, id)|
                && forall i :: 0 <= i < |names| ==>
                     Chain(db.profiles, id)[i] in db.profiles && names[i] == db.profiles[Chain(db.profiles, id)[i]].name
    {
      names := [];
      if !NameUsed(db.profiles, name) {
        return;
      }
      assert exists id :: id in db.profiles && db.profiles[id].name == name;
      var self :| self in db.profiles && db.profiles[self].name == name;
      var chain := WalkUp(self);
      ChainNoDup(db.profiles, self);
      ChainUnfold(db.profiles, self);
      for i := 0 to |chain|
        invariant |names| == i
        invariant forall j :: 0 <= j < i ==>
                    chain[j] in db.profiles && names[j] == db.profiles[chain[j]].name
      {
        assert chain[i] in Elems(chain);
        names := names + [db.profiles[chain[i]].name];
      }
    }

    /** `get_ancestor_repos`: own repos, then the parent's, and so on. */
    method GetAncestorRepos(name: Name) returns (rows: seq<int>)
      requires Valid()
      ensures !NameUsed(db.profiles, name) ==> rows == []
      ensures forall id :: id in db.profiles && db.profiles[id].name == name ==>
                rows == ReposOf(db, Chain(db.profiles, id))
    {
      rows := [];
      if !NameUsed(db.profiles, name) {
        return;
      }
      var self :| self in db.profiles && db.profiles[self].name == name;
      var chain := WalkUp(self);
      for i := 0 to |chain|
        invariant rows == ReposOf(db, chain[..i])
      {
        assert chain[..i + 1][..i] == chain[..i];
        var own := ReposBelow(db.repos, chain[i], db.nextRepo);
        rows := rows + own;
      }
      assert chain[..|chain|] == chain;
    }
  }

  // ----- Depth below a profile -----

  /** `id` is the `k`-th ancestor of `d`. */
  ghost predicate AtDepth(t: Profiles, id: int, d: int, k: nat)
    requires Acyclic(t) && d in t
  {
    k < |Chain(t, d)| && Chain(t, d)[k] == id
  }

  lemma DepthStep(t: Profiles, id: int, d: int, k: nat)
    requires Acyclic(t) && d in t
    ensures AtDepth(t, id, d, k + 1) <==>
              t[d].parent.Some? && t[d].parent.value in t && AtDepth(t, id, t[d].parent.value, k)
  {
    ChainUnfold(t, d);
    if t[d].parent.Some? {
      ChainUnfold(t, t[d].parent.value);
    }
  }

  lemma NextGeneration(t: Profiles, id: int, k: nat)
    requires Acyclic(t)
    ensures forall d :: d in t ==>
              (AtDepth(t, id, d, k + 1) <==>
                 t[d].parent.Some? && t[d].parent.value in t && AtDepth(t, id, t[d].parent.value, k))
  {
    forall d | d in t
      ensures AtDepth(t, id, d, k + 1) <==>
                t[d].parent.Some? && t[d].parent.value in t && AtDepth(t, id, t[d].parent.value, k)
    {
      DepthStep(t, id, d, k);
    }
  }

  lemma FirstGeneration(t: Profiles, id: int)
    requires Acyclic(t) && id in t
    ensures forall d :: d in t ==> (AtDepth(t, id, d, 1) <==> t[d].parent == Some(id))
  {
    forall d | d in t ensures AtDepth(t, id, d, 1) <==> t[d].parent == Some(id) {
      DepthStep(t, id, d, 0);
      ChainUnfold(t, d);
      if t[d].parent.Some? {
        ChainUnfold(t, t[d].parent.value);
      }
    }
  }

  /** Some descendant less than `k` generations down is on another version. */
  ghost predicate OtherVersionAbove(t: Profiles, id: int, version: Name, k: nat)
    requires Acyclic(t)
  {
    exists d, j :: 1 <= j < k && d in t && AtDepth(t, id, d, j) && t[d].version != version
  }

  lemma DepthBounded(t: Profiles, id: int, k: nat, generation: set<int>)
    requires Acyclic(t) && generation <= t.Keys
    requires forall d :: d in t ==> (d in generation <==> AtDepth(t, id, d, k))
    ensures generation != {} ==> k < |t|
  {
    forall d | d in generation ensures k < |t| {
      ChainNoDup(t, d);
    }
  }

  lemma DescendantDepth(t: Profiles, id: int, d: int)
    requires Acyclic(t) && d in t
    ensures IsDescendant(t, id, d) <==> exists j :: j >= 1 && AtDepth(t, id, d, j)
  {
    ChainUnfold(t, d);
    ChainNoDup(t, d);
    NoDupIndices(Chain(t, d));
    assert Chain(t, d)[0] == d;
    if IsDescendant(t, id, d) {
      var j :| 0 <= j < |Chain(t, d)| && Chain(t, d)[j] == id;
      assert j >= 1 && AtDepth(t, id, d, j);
    }
    if j :| j >= 1 && AtDepth(t, id, d, j) {
      assert Chain(t, d)[j] != Chain(t, d)[0];
      assert id in Chain(t, d) && IsDescendant(t, id, d);
    }
  }

  /** The chain up from a deeper descendant passes through every generation. */
  lemma SeenOnTheWay(t: Profiles, id: int, k: nat, d: int, j: nat) returns (x: int)
    requires Acyclic(t) && 1 <= k <= j && d in t && AtDepth(t, id, d, j)
    ensures x in t && AtDepth(t, id, x, k)
  {
    ChainSuffix(t, d, j - k);
    x := Chain(t, d)[j - k];
    ChainUnfold(t, x);
    assert Chain(t, d)[j - k..][k] == id;
  }

  /** Once a generation is empty, every descendant lies in an earlier one. */
  lemma AllDepthsSeen(t: Profiles, id: int, k: nat)
    requires Acyclic(t) && k >= 1
    requires forall d :: d in t ==> !AtDepth(t, id, d, k)
    ensures forall d :: d in t ==> (IsDescendant(t, id, d) <==> exists j :: 1 <= j < k && AtDepth(t, id, d, j))
  {
    forall d | d in t ensures IsDescendant(t, id, d) <==> exists j :: 1 <= j < k && AtDepth(t, id, d, j) {
      DescendantDepth(t, id, d);
      if j :| j >= k && AtDepth(t, id, d, j) {
        var x := SeenOnTheWay(t, id, k, d, j);
        assert false;
      }
    }
  }

  // ----- What the ancestor lists hold -----

  lemma {:induction false} ReposBelowRight(repos: map<int, Repo>, profile: int, next: int, r: int)
    ensures r in ReposBelow(repos, profile, next) <==> 0 < r < next && r in repos && repos[r].profileId == profile
    decreases next
  {
    if next > 1 {
      ReposBelowRight(repos, profile, next - 1, r);
    }
  }

  lemma {:induction false} ReposBelowAscending(repos: map<int, Repo>, profile: int, next: int, i: int, j: int)
    requires 0 <= i < j < |ReposBelow(repos, profile, next)|
    ensures ReposBelow(repos, profile, next)[i] < ReposBelow(repos, profile, next)[j]
    decreases next
  {
    var front := ReposBelow(repos, profile, next - 1);
    if j < |front| {
      ReposBelowAscending(repos, profile, next - 1, i, j);
    } else {
      assert front[i] in front;
      ReposBelowRight(repos, profile, next - 1, front[i]);
    }
  }

  /** The position in the chain of the profile that owns a repo. */
  ghost predicate Owner(db: Tables, chain: seq<int>, r: int, depth: nat) {
    depth < |chain| && r in db.repos && db.repos[r].profileId == chain[depth]
  }

  /** Main result on the list: a repo is in it exactly when a member of the chain owns it. */
  lemma {:induction false} ReposOfComplete(db: Tables, chain: seq<int>, r: int)
    requires IdsBelow(db.repos, db.nextRepo)
    ensures r in ReposOf(db, chain) <==> exists depth: nat :: Owner(db, chain, r, depth)
  {
    if chain != [] {
      var front, last := chain[..|chain| - 1], chain[|chain| - 1];
      ReposOfComplete(db, front, r);
      ReposBelowRight(db.repos, last, db.nextRepo, r);
      if r in ReposOf(db, front) {
        var depth: nat :| Owner(db, front, r, depth);
        assert Owner(db, chain, r, depth);
      }
      if r in ReposBelow(db.repos, last, db.nextRepo) {
        assert Owner(db, chain, r, |front|);
      }
      if depth: nat :| Owner(db, chain, r, depth) && depth < |front| {
        assert Owner(db, front, r, depth);
      }
    }
  }

  /** The list is ordered by depth in the chain and then by id, so no repo comes twice. */
  lemma {:induction false} ReposOfOrdered(db: Tables, chain: seq<int>, i: int, j: int)
    requires IdsBelow(db.repos, db.nextRepo) && NoDup(chain)
    requires 0 <= i < j < |ReposOf(db, chain)|
    ensures exists a: nat, b: nat ::
              && Owner(db, chain, ReposOf(db, chain)[i], a) && Owner(db, chain, ReposOf(db, chain)[j], b)
              && (a < b || (a == b && ReposOf(db, chain)[i] < ReposOf(db, chain)[j]))
  {
    var front, last := chain[..|chain| - 1], chain[|chain| - 1];
    var early, own := ReposOf(db, front), ReposBelow(db.repos, last, db.nextRepo);
    var ri, rj := ReposOf(db, chain)[i], ReposOf(db, chain)[j];
    NoDupFront(chain);
    if j < |early| {
      ReposOfOrdered(db, front, i, j);
      var a: nat, b: nat :| Owner(db, front, ri, a) && Owner(db, front, rj, b) && (a < b || (a == b && ri < rj));
      assert Owner(db, chain, ri, a) && Owner(db, chain, rj, b);
    } else {
      assert rj == own[j - |early|] && rj in own;
      ReposBelowRight(db.repos, last, db.nextRepo, rj);
      assert Owner(db, chain, rj, |front|);
      if i < |early| {
        assert ri in early;
        ReposOfComplete(db, front, ri);
        var a: nat :| Owner(db, front, ri, a);
        assert Owner(db, chain, ri, a);
      } else {
        assert ri == own[i - |early|] && ri in own;
        ReposBelowRight(db.repos, last, db.nextRepo, ri);
        assert Owner(db, chain, ri, |front|);
        ReposBelowAscending(db.repos, last, db.nextRepo, i - |early|, j - |early|);
      }
    }
  }
}
