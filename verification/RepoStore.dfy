/** Profiles and their repos (`src/db/repo_registry.py`), as two tables changed by
    serial calls. */
module RepoStore {
  import opened Common
  import opened Names
  import opened ProfileChain

  datatype Repo = Repo(profileId: int, url: Name, branch: Name, headSha: Option<Name>)

  datatype Tables = Tables(profiles: Profiles, repos: map<int, Repo>, nextProfile: int, nextRepo: int)

  datatype Error =
    | NotFound | ParentNotFound | VersionMismatch | CycleFound | NameTaken | AlreadyIndexed | HasChildren | RepoTaken

  /** Parent and child agree on the Odoo version. */
  ghost predicate VersionsAgree(t: Profiles) {
    forall id :: id in t && t[id].parent.Some? && t[id].parent.value in t ==>
      t[t[id].parent.value].version == t[id].version
  }

  ghost predicate NamesUnique(t: Profiles) {
    forall a, b :: a in t && b in t && t[a].name == t[b].name ==> a == b
  }

  /** Ids come from a serial column: those in use are positive and below the next one. */
  ghost predicate IdsBelow<T>(t: map<int, T>, next: int) {
    next >= 1 && forall id :: id in t ==> 0 < id < next
  }

  ghost predicate Consistent(db: Tables) {
    && Acyclic(db.profiles) && VersionsAgree(db.profiles) && NamesUnique(db.profiles)
    && IdsBelow(db.profiles, db.nextProfile) && IdsBelow(db.repos, db.nextRepo)
    && forall r :: r in db.repos ==> db.repos[r].profileId in db.profiles
  }

  const EMPTY: Tables := Tables(map[], map[], 1, 1)

  // ----- The calls as functions on the tables -----

  predicate NameUsed(t: Profiles, name: Name) {
    exists id :: id in t && t[id].name == name
  }

  predicate HasChild(t: Profiles, id: int) {
    exists c :: c in t && t[c].parent == Some(id)
  }

  predicate Indexed(db: Tables, id: int) {
    exists r :: r in db.repos && db.repos[r].profileId == id && db.repos[r].headSha.Some?
  }

  ghost predicate IsDescendant(t: Profiles, id: int, d: int)
    requires Acyclic(t)
  {
    d in t && d != id && id in Chain(t, d)
  }

  /** `add_profile`. The serial value is used up even when the name is taken. */
  function AddedProfile(db: Tables, p: Profile): (Tables, Result<int, Error>) {
    if p.parent.Some? && p.parent.value !in db.profiles then (db, Err(ParentNotFound))
    else if p.parent.Some? && db.profiles[p.parent.value].version != p.version then (db, Err(VersionMismatch))
    else if NameUsed(db.profiles, p.name) then (db.(nextProfile := db.nextProfile + 1), Err(NameTaken))
    else (db.(profiles := db.profiles[db.nextProfile := p], nextProfile := db.nextProfile + 1), Ok(db.nextProfile))
  }

  /** `_validate_parent`: the first reason to refuse, if any. */
  ghost function ParentRefusal(t: Profiles, id: int, parent: Option<int>): Option<Error>
    requires Acyclic(t)
  {
    if parent.None? then None
    else if parent.value == id then Some(CycleFound)
    else if id !in t then Some(NotFound)
    else if parent.value !in t then Some(ParentNotFound)
    else if t[id].version != t[parent.value].version then Some(VersionMismatch)
    else if id in Chain(t, parent.value) then Some(CycleFound)
    else None
  }

  /** `set_profile_parent`; the answer says whether the row changed. */
  ghost function ParentSet(db: Tables, id: int, parent: Option<int>): (Tables, Result<bool, Error>)
    requires Acyclic(db.profiles)
  {
    var refusal := ParentRefusal(db.profiles, id, parent);
    if refusal.Some? then (db, Err(refusal.value))
    else if id !in db.profiles then (db, Err(NotFound))
    else (db.(profiles := Redirect(db.profiles, id, parent)), Ok(db.profiles[id].parent != parent))
  }

  datatype Field = NameField | VersionField | DescriptionField

  predicate Changes(wanted: Option<Name>, current: Name) {
    wanted.Some? && wanted.value != current
  }

  function ChangedFields(p: Profile, name: Option<Name>, version: Option<Name>, description: Option<Name>): seq<Field> {
    (if Changes(name, p.name) then [NameField] else [])
    + (if Changes(version, p.version) then [VersionField] else [])
    + (if description.Some? && description != p.description then [DescriptionField] else [])
  }

  function Edited(p: Profile, name: Option<Name>, version: Option<Name>, description: Option<Name>): Profile {
    Profile(if name.Some? then name.value else p.name, if version.Some? then version.value else p.version,
            if description.Some? then description else p.description, p.parent)
  }

  /** `update_profile`. */
  ghost function Updated(db: Tables, id: int, name: Option<Name>, version: Option<Name>, description: Option<Name>)
    : (Tables, Result<seq<Field>, Error>)
    requires Acyclic(db.profiles)
  {
    var t := db.profiles;
    if id !in t then (db, Err(NotFound))
    else if (Changes(name, t[id].name) || Changes(version, t[id].version)) && Indexed(db, id) then
      (db, Err(AlreadyIndexed))
    else if Changes(version, t[id].version) && t[id].parent.Some? && t[id].parent.value in t
            && t[t[id].parent.value].version != version.value then (db, Err(VersionMismatch))
    else if Changes(version, t[id].version)
            && exists d :: IsDescendant(t, id, d) && t[d].version != version.value then (db, Err(VersionMismatch))
    else if ChangedFields(t[id], name, version, description) == [] then (db, Ok([]))
    else if Changes(name, t[id].name) && NameUsed(t, name.value) then (db, Err(NameTaken))
    else (db.(profiles := t[id := Edited(t[id], name, version, description)]),
          Ok(ChangedFields(t[id], name, version, description)))
  }

  /** `delete_profile`: children block it, the profile's repos go with it. */
  function Deleted(db: Tables, id: int): (Tables, Result<set<int>, Error>) {
    if id !in db.profiles then (db, Err(NotFound))
    else if HasChild(db.profiles, id) then (db, Err(HasChildren))
    else
      var owned := set r | r in db.repos && db.repos[r].profileId == id;
      (db.(profiles := db.profiles - {id}, repos := db.repos - owned), Ok(owned))
  }

  /** `add_repo`: (url, branch) is unique, and the profile must exist; the index is checked
      when the row goes in, the reference when the statement ends. */
  function AddedRepo(db: Tables, r: Repo): (Tables, Result<int, Error>) {
    var taken := db.(nextRepo := db.nextRepo + 1);
    if exists q :: q in db.repos && db.repos[q].url == r.url && db.repos[q].branch == r.branch then
      (taken, Err(RepoTaken))
    else if r.profileId !in db.profiles then (taken, Err(NotFound))
    else (taken.(repos := db.repos[db.nextRepo := r]), Ok(db.nextRepo))
  }

  /** `update_repo_head_sha` and `reset_head_sha`. */
  function HeadSet(db: Tables, r: int, sha: Option<Name>): Tables {
    if r in db.repos then db.(repos := db.repos[r := db.repos[r].(headSha := sha)]) else db
  }

  datatype Call =
    | AddProfile(p: Profile)
    | SetParent(id: int, parent: Option<int>)
    | Update(id: int, name: Option<Name>, version: Option<Name>, description: Option<Name>)
    | Delete(id: int)
    | AddRepo(repo: Repo)
    | SetHead(r: int, sha: Option<Name>)

  ghost function After(db: Tables, c: Call): Tables
    requires Acyclic(db.profiles)
  {
    match c
    case AddProfile(p) => AddedProfile(db, p).0
    case SetParent(id, parent) => ParentSet(db, id, parent).0
    case Update(id, name, version, description) => Updated(db, id, name, version, description).0
    case Delete(id) => Deleted(db, id).0
    case AddRepo(r) => AddedRepo(db, r).0
    case SetHead(r, sha) => HeadSet(db, r, sha)
  }

  // ----- Every call keeps the tables consistent -----

  lemma SetParentConsistent(db: Tables, id: int, parent: Option<int>)
    requires Consistent(db)
    ensures Consistent(ParentSet(db, id, parent).0)
  {
    if id in db.profiles && ParentRefusal(db.profiles, id, parent).None? {
      if parent.None? {
        ClearKeepsAcyclic(db.profiles, id);
      } else {
        RedirectAcyclicIff(db.profiles, id, parent.value);
        forall c | c in db.profiles && db.profiles[c].parent == Some(id) ensures c != id {
          if c == id { NoOwnAncestor(db.profiles, id); ChainUnfold(db.profiles, id); assert false; }
        }
      }
    }
  }

  lemma UpdateConsistent(db: Tables, id: int, name: Option<Name>, version: Option<Name>, description: Option<Name>)
    requires Consistent(db)
    ensures Consistent(Updated(db, id, name, version, description).0)
  {
    var t := db.profiles;
    var u := Updated(db, id, name, version, description).0.profiles;
    if u != t {
      assert KeepsParents(t, u);
      forall x | x in u ensures Rooted(u, x) {
        RootedKept(t, u, x);
      }
      assert VersionsAgree(u) by {
        UpdateKeepsVersions(db, id, name, version, description);
      }
    }
  }

  lemma UpdateKeepsVersions(db: Tables, id: int, name: Option<Name>, version: Option<Name>, description: Option<Name>)
    requires Acyclic(db.profiles) && VersionsAgree(db.profiles)
    ensures VersionsAgree(Updated(db, id, name, version, description).0.profiles)
  {
    var t := db.profiles;
    var u := Updated(db, id, name, version, description).0.profiles;
    if u != t {
      forall c | c in u && u[c].parent.Some? && u[c].parent.value in u
        ensures u[u[c].parent.value].version == u[c].version
      {
        if t[c].parent.value == id {
          ChildIsDescendant(t, c);
        }
      }
    }
  }

  lemma ChildIsDescendant(t: Profiles, c: int)
    requires Acyclic(t) && c in t && t[c].parent.Some?
    ensures t[c].parent.value in t && t[c].parent.value != c && IsDescendant(t, t[c].parent.value, c)
  {
    ChainUnfold(t, c);
    ChainUnfold(t, t[c].parent.value);
    NoOwnAncestor(t, c);
  }

  lemma CallConsistent(db: Tables, c: Call)
    requires Consistent(db)
    ensures Consistent(After(db, c))
  {
    match c
    case AddProfile(p) =>
      if AddedProfile(db, p).1.Ok? {
        AddKeepsAcyclic(db.profiles, db.nextProfile, p);
        forall x | x in db.profiles ensures db.profiles[x].parent != Some(db.nextProfile) {
          ChainUnfold(db.profiles, x);
          if db.profiles[x].parent.Some? { ChainUnfold(db.profiles, db.profiles[x].parent.value); }
        }
      }
    case SetParent(id, parent) => SetParentConsistent(db, id, parent);
    case Update(id, name, version, description) => UpdateConsistent(db, id, name, version, description);
    case Delete(id) =>
      if id in db.profiles && !HasChild(db.profiles, id) {
        RemoveKeepsAcyclic(db.profiles, id);
      }
    case AddRepo(r) =>
    case SetHead(r, sha) =>
  }

  /** The tables after a run of calls: consistent at every point. */
  ghost function Run(start: Tables, calls: seq<Call>): (db: Tables)
    requires Consistent(start)
    ensures Consistent(db)
  {
    if calls == [] then start
    else
      var db := Run(start, calls[..|calls| - 1]);
      CallConsistent(db, calls[|calls| - 1]);
      After(db, calls[|calls| - 1])
  }

  /** In every state reachable from the empty tables parents exist, no profile is its own
      ancestor, and a chain of parents shares one version. */
  lemma ReachableAcyclic(calls: seq<Call>, id: int)
    requires id in Run(EMPTY, calls).profiles
    ensures var t := Run(EMPTY, calls).profiles;
            && (forall i :: 0 <= i < |Chain(t, id)| ==>
                  Chain(t, id)[i] in t && t[Chain(t, id)[i]].version == t[id].version)
            && (t[id].parent.Some? ==>
                  t[id].parent.value in t && Rooted(t, t[id].parent.value) && id !in Chain(t, t[id].parent.value))
  {
    var t := Run(EMPTY, calls).profiles;
    forall i | 0 <= i < |Chain(t, id)| ensures Chain(t, id)[i] in t && t[Chain(t, id)[i]].version == t[id].version {
      ChainSharesVersion(t, id, i);
    }
    if t[id].parent.Some? {
      ChainUnfold(t, id);
      NoOwnAncestor(t, id);
    }
  }

  // ----- When a change of parent or version goes through -----

  /** Between existing profiles of one version, a new parent is refused exactly when
      setting it would close a cycle. */
  lemma ReparentRefusedIffCycle(db: Tables, id: int, parent: int)
    requires Consistent(db) && id in db.profiles && parent in db.profiles
    requires db.profiles[id].version == db.profiles[parent].version
    ensures ParentSet(db, id, Some(parent)).1.Err? <==> !Acyclic(Redirect(db.profiles, id, Some(parent)))
    ensures ParentSet(db, id, Some(parent)).1.Err? ==> ParentSet(db, id, Some(parent)) == (db, Err(CycleFound))
  {
    RedirectAcyclicIff(db.profiles, id, parent);
    ChainUnfold(db.profiles, parent);
  }

  /** Profiles joined by a chain of parents share one version. */
  lemma {:induction false} ChainSharesVersion(t: Profiles, id: int, i: nat)
    requires Acyclic(t) && VersionsAgree(t) && id in t && i < |Chain(t, id)|
    ensures Chain(t, id)[i] in t && t[Chain(t, id)[i]].version == t[id].version
    decreases i
  {
    ChainUnfold(t, id);
    if i > 0 {
      ChainUnfold(t, t[id].parent.value);
      ChainSharesVersion(t, t[id].parent.value, i - 1);
    }
  }

  /** An update that changes the version, with or without a new name or description, goes
      through exactly for a profile that is not indexed and has neither parent nor children,
      when a name it changes to is free. */
  lemma VersionChangeIffAlone(db: Tables, id: int, name: Option<Name>, version: Name, description: Option<Name>)
    requires Consistent(db) && id in db.profiles && db.profiles[id].version != version
    ensures Updated(db, id, name, Some(version), description).1.Ok? <==>
              && !Indexed(db, id) && db.profiles[id].parent.None? && !HasChild(db.profiles, id)
              && !(Changes(name, db.profiles[id].name) && NameUsed(db.profiles, name.value))
  {
    var t := db.profiles;
    ChainUnfold(t, id);
    if t[id].parent.Some? {
      ChainUnfold(t, t[id].parent.value);
    }
    if HasChild(t, id) {
      var c :| c in t && t[c].parent == Some(id);
      ChainUnfold(t, c);
      NoOwnAncestor(t, c);
      assert IsDescendant(t, id, c);
    }
    if d :| IsDescendant(t, id, d) && t[d].version != version {
      DescendantHasChildOf(t, id, d);
    }
  }

  lemma DescendantHasChildOf(t: Profiles, id: int, d: int)
    requires Acyclic(t) && IsDescendant(t, id, d)
    ensures HasChild(t, id)
  {
    var i :| 0 <= i < |Chain(t, d)| && Chain(t, d)[i] == id;
    ChainUnfold(t, d);
    ChainSuffix(t, d, i - 1);
    var c := Chain(t, d)[i - 1];
    ChainUnfold(t, c);
    assert Chain(t, c) == Chain(t, d)[i - 1..];
    assert Chain(t, c)[1] == id;
    ChainUnfold(t, t[c].parent.value);
    assert t[c].parent == Some(id);
  }

  // ----- What each call leaves in the tables, row by row -----

  /** The rows of two tables are the same but for those of `ids`. */
  ghost predicate SameBut<T>(t: map<int, T>, u: map<int, T>, ids: set<int>) {
    forall x :: x !in ids ==> (x in u <==> x in t) && (x in t ==> u[x] == t[x])
  }

  /** A profile is added exactly when its parent, if any, exists with the same version and its
      name is free; then one row appears, under an id not in use. The error says what is wrong. */
  lemma AddProfileOutcome(db: Tables, p: Profile)
    requires Consistent(db)
    ensures var (end, r) := AddedProfile(db, p);
            && end.repos == db.repos
            && (r.Ok? <==>
                  && (p.parent.Some? ==>
                        p.parent.value in db.profiles && db.profiles[p.parent.value].version == p.version)
                  && forall x :: x in db.profiles ==> db.profiles[x].name != p.name)
            && (r.Ok? ==> r.value !in db.profiles && SameBut(db.profiles, end.profiles, {r.value})
                          && r.value in end.profiles && end.profiles[r.value] == p)
            && (r.Err? ==> end.profiles == db.profiles)
    ensures var t, r := db.profiles, AddedProfile(db, p).1;
            var orphan := p.parent.Some? && p.parent.value !in t;
            var misfit := p.parent.Some? && p.parent.value in t && t[p.parent.value].version != p.version;
            && (r == Err(ParentNotFound) <==> orphan) && (r == Err(VersionMismatch) <==> misfit)
            && (r == Err(NameTaken) <==> !orphan && !misfit && NameUsed(t, p.name))
  {
  }

  /** A parent is set exactly when the profile exists and the parent, if any, exists with the
      same version and is neither the profile nor below it; then the row has that parent and
      all else is as before. The error says what is wrong. */
  lemma SetParentOutcome(db: Tables, id: int, parent: Option<int>)
    requires Consistent(db)
    ensures var (end, r) := ParentSet(db, id, parent);
            && end.repos == db.repos && SameBut(db.profiles, end.profiles, {id})
            && (r.Ok? <==>
                  && id in db.profiles
                  && (parent.Some? ==>
                        && parent.value in db.profiles && db.profiles[parent.value].version == db.profiles[id].version
                        && id !in Chain(db.profiles, parent.value)))
            && (r.Ok? ==>
                  && id in end.profiles && end.profiles[id].parent == parent
                  && end.profiles[id].name == db.profiles[id].name
                  && end.profiles[id].version == db.profiles[id].version
                  && end.profiles[id].description == db.profiles[id].description
                  && (r.value <==> db.profiles[id].parent != parent))
            && (r.Err? ==> end == db)
    ensures parent.Some? ==>
              var t, r, p := db.profiles, ParentSet(db, id, parent).1, parent.value;
              && (r == Err(NotFound) <==> p != id && id !in t)
              && (r == Err(ParentNotFound) <==> p != id && id in t && p !in t)
              && (r == Err(VersionMismatch) <==> p != id && id in t && p in t && t[id].version != t[p].version)
              && (r == Err(CycleFound) <==>
                    p == id || (id in t && p in t && t[id].version == t[p].version && id in Chain(t, p)))
    ensures parent.None? && id !in db.profiles ==> ParentSet(db, id, parent).1 == Err(NotFound)
  {
    if parent.Some? && parent.value in db.profiles {
      ChainUnfold(db.profiles, parent.value);
    }
  }

  /** An update that goes through leaves each field that was asked for with what was asked, the
      others as they were, and names exactly the fields that differ. */
  lemma UpdateOutcome(db: Tables, id: int, name: Option<Name>, version: Option<Name>, description: Option<Name>)
    requires Consistent(db)
    ensures var (end, r) := Updated(db, id, name, version, description);
            && end.repos == db.repos && SameBut(db.profiles, end.profiles, {id})
            && (r.Err? ==> end == db)
            && (r.Ok? ==>
                  && id in db.profiles && id in end.profiles
                  && var was, now := db.profiles[id], end.profiles[id];
                  && now.parent == was.parent
                  && now.name == (if name.Some? then name.value else was.name)
                  && now.version == (if version.Some? then version.value else was.version)
                  && now.description == (if description.Some? then description else was.description)
                  && (NameField in r.value <==> now.name != was.name)
                  && (VersionField in r.value <==> now.version != was.version)
                  && (DescriptionField in r.value <==> now.description != was.description))
  {
  }

  /** A profile is deleted exactly when it exists and has no child; then its row goes, and of
      the repos exactly those it owns, which are the answer. The error says what is wrong. */
  lemma DeleteOutcome(db: Tables, id: int)
    ensures var (end, r) := Deleted(db, id);
            && (r.Ok? <==> id in db.profiles && forall c :: c in db.profiles ==> db.profiles[c].parent != Some(id))
            && (r.Err? ==> end == db)
            && (r.Ok? ==>
                  && id !in end.profiles && SameBut(db.profiles, end.profiles, {id})
                  && (forall x :: x in end.repos <==> x in db.repos && db.repos[x].profileId != id)
                  && (forall x :: x in end.repos ==> end.repos[x] == db.repos[x])
                  && r.value == db.repos.Keys - end.repos.Keys)
    ensures Deleted(db, id).1 == Err(NotFound) <==> id !in db.profiles
    ensures Deleted(db, id).1 == Err(HasChildren) <==> id in db.profiles && HasChild(db.profiles, id)
  {
  }

  /** A repo is added exactly when its url and branch are not taken together and its profile
      exists; a head is set in one row and nothing else of it changes. */
  lemma RepoOutcome(db: Tables, repo: Repo, id: int, sha: Option<Name>)
    requires Consistent(db)
    ensures var (end, r) := AddedRepo(db, repo);
            && end.profiles == db.profiles
            && (r.Ok? <==>
                  && repo.profileId in db.profiles
                  && forall q :: q in db.repos ==> db.repos[q].url != repo.url || db.repos[q].branch != repo.branch)
            && (r.Ok? ==> r.value !in db.repos && SameBut(db.repos, end.repos, {r.value})
                          && r.value in end.repos && end.repos[r.value] == repo)
            && (r.Err? ==> end.repos == db.repos)
    ensures var end := HeadSet(db, id, sha);
            && end.profiles == db.profiles && SameBut(db.repos, end.repos, {id})
            && (id in end.repos <==> id in db.repos)
            && (id in db.repos ==>
                  && end.repos[id].headSha == sha && end.repos[id].profileId == db.repos[id].profileId
                  && end.repos[id].url == db.repos[id].url && end.repos[id].branch == db.repos[id].branch)
  {
  }

  // ----- Which error a refused call gives -----

  /** Each error of an update. A version change is a mismatch for every profile that has a
      parent or a child; without one, only a changed name can be refused. */
  lemma UpdateErrors(db: Tables, id: int, name: Option<Name>, version: Option<Name>, description: Option<Name>)
    requires Consistent(db) && id in db.profiles
    ensures var t, r := db.profiles, Updated(db, id, name, version, description).1;
            var renamed := name.Some? && name.value != t[id].name;
            var moved := version.Some? && version.value != t[id].version;
            var bound := moved && (t[id].parent.Some? || HasChild(t, id));
            && (r == Err(AlreadyIndexed) <==> (renamed || moved) && Indexed(db, id))
            && (r == Err(VersionMismatch) <==> bound && !Indexed(db, id))
            && (r == Err(NameTaken) <==> renamed && !Indexed(db, id) && !bound && NameUsed(t, name.value))
    ensures forall x :: x !in db.profiles ==> Updated(db, x, name, version, description).1 == Err(NotFound)
    ensures (version.Some? ==> version.value == db.profiles[id].version) ==>
              (Updated(db, id, name, version, description).1.Ok? <==>
                 (name.Some? && name.value != db.profiles[id].name ==>
                    && (forall r :: r in db.repos && db.repos[r].profileId == id ==> db.repos[r].headSha.None?)
                    && forall x :: x in db.profiles ==> db.profiles[x].name != name.value))
  {
    if version.Some? && version.value != db.profiles[id].version {
      VersionChangeIffAlone(db, id, name, version.value, description);
      VersionChangeIffAlone(db, id, None, version.value, None);
    }
  }

}
