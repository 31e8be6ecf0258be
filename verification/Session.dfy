/** Sticky session state per API key (`src/mcp/session.py`): a database row behind a
    60-second cache, read and written by interleaved calls. */
module Session {
  import opened Common
  import opened Names

  const CACHE_TTL: real := 60.0
  const SESSION_TTL: real := 86400.0

  datatype SessionState = SessionState(version: Option<Name>, profile: Option<Name>)

  datatype Row = Row(version: Option<Name>, profile: Option<Name>, updatedAt: real)

  datatype Patch = SetVersion(version: Name) | SetProfile(profile: Option<Name>)

  datatype Write = Write(key: Name, patch: Patch, at: real)

  // ----- The database -----

  /** The upsert of one field; it renews the row. */
  function Upserted(row: Option<Row>, patch: Patch, at: real): Row {
    var was := if row.Some? then row.value else Row(None, None, at);
    match patch
    case SetVersion(v) => Row(Some(v), was.profile, at)
    case SetProfile(p) => Row(was.version, p, at)
  }

  /** The row of a key after a history of writes. */
  function RowAfter(history: seq<Write>, key: Name): Option<Row> {
    if history == [] then None
    else
      var before, w := RowAfter(history[..|history| - 1], key), history[|history| - 1];
      if w.key == key then Some(Upserted(before, w.patch, w.at)) else before
  }

  function NonEmpty(n: Option<Name>): Option<Name> {
    if n.Some? && n.value.text == "" then None else n
  }

  /** What the query answers at an instant: rows not renewed for 24 hours are left out. */
  function Query(row: Option<Row>, now: real): Option<SessionState> {
    if row.None? || row.value.updatedAt <= now - SESSION_TTL then None
    else Some(SessionState(NonEmpty(row.value.version), NonEmpty(row.value.profile)))
  }

  /** A set call updates its own field, keeps the other one, and renews the row; rows of other
      keys stay. */
  lemma WriteOutcome(history: seq<Write>, w: Write, key: Name)
    ensures var before, after := RowAfter(history, key), RowAfter(history + [w], key);
            if w.key != key then after == before
            else
              && after.Some? && after.value.updatedAt == w.at
              && (w.patch.SetVersion? ==>
                    && after.value.version == Some(w.patch.version)
                    && after.value.profile == if before.Some? then before.value.profile else None)
              && (w.patch.SetProfile? ==>
                    && after.value.profile == w.patch.profile
                    && after.value.version == if before.Some? then before.value.version else None)
  {
    assert (history + [w])[..|history|] == history;
  }

  /** The query answers a row exactly while it was renewed less than 24 hours ago, with the
      version and profile it holds, blank ones as none. */
  lemma QueryOutcome(row: Option<Row>, now: real)
    ensures Query(row, now).Some? <==> row.Some? && now - row.value.updatedAt < 86400.0
    ensures Query(row, now).Some? ==>
              var v, p := Query(row, now).value.version, Query(row, now).value.profile;
              && (v.Some? <==> row.value.version.Some? && row.value.version.value.text != "")
              && (v.Some? ==> v == row.value.version)
              && (p.Some? <==> row.value.profile.Some? && row.value.profile.value.text != "")
              && (p.Some? ==> p == row.value.profile)
  {
  }

  // ----- The cache -----

  datatype CacheEntry = CacheEntry(state: Option<SessionState>, expiresAt: real)

  type Cache = map<Name, CacheEntry>

  function Hit(cache: Cache, key: Name, now: real): Option<Option<SessionState>> {
    if key in cache && cache[key].expiresAt > now then Some(cache[key].state) else None
  }

  function Filled(cache: Cache, key: Name, state: Option<SessionState>, now: real): Cache {
    cache[key := CacheEntry(state, now + CACHE_TTL)]
  }

  /** What a read without interruption makes of the cache, and its answer. */
  function ReadAlone(cache: Cache, history: seq<Write>, key: Name, now: real, queried: real, reachable: bool)
    : (Cache, Option<SessionState>)
  {
    var hit := Hit(cache, key, now);
    if hit.Some? then (cache, hit.value)
    else
      var state := if reachable then Query(RowAfter(history, key), queried) else None;
      (Filled(cache, key, state, now), state)
  }

  /** The module's cache and the table, for calls that run one at a time. */
  class SessionStore {
    var cache: Cache
    var history: seq<Write>

    constructor ()
      ensures cache == map[] && history == []
    {
      cache, history := map[], [];
    }

    /** `get_session_state`; `reachable` says whether the database answers, at `queried`. */
    method GetSessionState(key: Name, now: real, queried: real, reachable: bool)
      returns (state: Option<SessionState>)
      modifies `cache
      ensures (cache, state) == ReadAlone(old(cache), history, key, now, queried, reachable)
    {
      if key in cache && cache[key].expiresAt > now {
        return cache[key].state;
      }
      state := None;
      if reachable {
        state := Query(RowAfter(history, key), queried);
      }
      cache := cache[key := CacheEntry(state, now + CACHE_TTL)];
    }

    /** `set_active_version_db` and `set_active_profile_db`: upsert, then invalidate. */
    method SetActive(key: Name, patch: Patch, at: real)
      modifies this
      ensures history == old(history) + [Write(key, patch, at)]
      ensures var before, after := RowAfter(old(history), key), RowAfter(history, key);
              && after.Some? && after.value.updatedAt == at
              && (patch.SetVersion? ==>
                    && after.value.version == Some(patch.version)
                    && after.value.profile == if before.Some? then before.value.profile else None)
              && (patch.SetProfile? ==>
                    && after.value.profile == patch.profile
                    && after.value.version == if before.Some? then before.value.version else None)
      ensures forall k :: k != key ==> RowAfter(history, k) == RowAfter(old(history), k)
      ensures cache == old(cache) - {key}
    {
      history := history + [Write(key, patch, at)];
      cache := cache - {key};
      assert history[..|history| - 1] == old(history);
    }
  }

  /** A second read within 60 seconds gives the answer of the first and asks nothing; one that
      comes later asks again. */
  lemma SecondRead(cache: Cache, history: seq<Write>, key: Name, first: real, queried: real, reachable: bool,
                   second: real)
    requires key !in cache
    ensures var (filled, answer) := ReadAlone(cache, history, key, first, queried, reachable);
            && (second < first + 60.0 ==>
                  forall later, h, again :: ReadAlone(filled, h, key, second, later, again) == (filled, answer))
            && (second >= first + 60.0 ==>
                  forall later, h :: ReadAlone(filled, h, key, second, later, true).1 == Query(RowAfter(h, key), later))
            && forall k :: k != key ==> (k in filled <==> k in cache) && (k in cache ==> filled[k] == cache[k])
  {
  }

  // ----- Interleaved calls -----

  /** How far a read has come: it has taken the time, missed the cache, got the answer of
      the database, or returned. */
  datatype Reader =
    | Idle
    | Started(key: Name, t: real)
    | Missed(key: Name, t: real)
    | Fetched(key: Name, t: real, answer: Option<SessionState>)
    | Returned(key: Name, t: real, answer: Option<SessionState>)

  /** A query that failed, when, and how many writes there were by then. */
  datatype Failure = Failure(key: Name, at: real, writes: nat)

  datatype World = World(clock: real, history: seq<Write>, cache: Cache, readers: map<int, Reader>,
                         failures: set<Failure>)

  datatype Event =
    | Tick(to: real)
    | Begin(id: int, key: Name)
    | Lookup(id: int)
    | Fetch(id: int, reachable: bool)
    | Fill(id: int)
    | Leave(id: int)
    | Upsert(key: Name, patch: Patch)
    | Invalidate(key: Name)

  function ReaderOf(w: World, id: int): Reader {
    if id in w.readers then w.readers[id] else Idle
  }

  function Next(w: World, e: Event): World {
    match e
    case Tick(to) => if to >= w.clock then w.(clock := to) else w
    case Begin(id, key) => w.(readers := w.readers[id := Started(key, w.clock)])
    case Lookup(id) =>
      (match ReaderOf(w, id)
       case Started(key, t) =>
         var hit := Hit(w.cache, key, t);
         w.(readers := w.readers[id := if hit.Some? then Returned(key, t, hit.value) else Missed(key, t)])
       case _ => w)
    case Fetch(id, reachable) =>
      (match ReaderOf(w, id)
       case Missed(key, t) =>
         if reachable then w.(readers := w.readers[id := Fetched(key, t, Query(RowAfter(w.history, key), w.clock))])
         else w.(readers := w.readers[id := Fetched(key, t, None)],
                 failures := w.failures + {Failure(key, w.clock, |w.history|)})
       case _ => w)
    case Fill(id) =>
      (match ReaderOf(w, id)
       case Fetched(key, t, answer) =>
         w.(cache := Filled(w.cache, key, answer, t), readers := w.readers[id := Returned(key, t, answer)])
       case _ => w)
    case Leave(id) => if ReaderOf(w, id).Returned? then w.(readers := w.readers[id := Idle]) else w
    case Upsert(key, patch) => w.(history := w.history + [Write(key, patch, w.clock)])
    case Invalidate(key) => w.(cache := w.cache - {key})
  }

  function Run(w: World, es: seq<Event>): World {
    if es == [] then w else Next(Run(w, es[..|es| - 1]), es[|es| - 1])
  }

  /** The readers that begin a read in a run. */
  function Begun(es: seq<Event>): set<int> {
    if es == [] then {}
    else Begun(es[..|es| - 1]) + if es[|es| - 1].Begin? then {es[|es| - 1].id} else {}
  }

  const START: World := World(0.0, [], map[], map[], {})

  // ----- Where answers come from -----

  /** The database gave `answer` at instant `f`, when its history was the first `n` writes:
      it is the answer to the query then, or no session because a query failed then. */
  ghost predicate Given(w: World, key: Name, answer: Option<SessionState>, f: real, n: nat) {
    && n <= |w.history| && f <= w.clock
    && (forall i :: 0 <= i < n ==> w.history[i].at <= f)
    && (forall i :: n <= i < |w.history| ==> f <= w.history[i].at)
    && (answer == Query(RowAfter(w.history[..n], key), f) || (answer.None? && Failure(key, f, n) in w.failures))
  }

  ghost predicate GivenSince(w: World, key: Name, answer: Option<SessionState>, from: real, since: nat) {
    exists f, n: nat :: from <= f && since <= n && Given(w, key, answer, f, n)
  }

  /** A read begun at `t` may answer this when it has to reflect the first `since` writes: the
      database gave the answer after `t` less 60 seconds, with these writes made. */
  ghost predicate Reflects(w: World, key: Name, answer: Option<SessionState>, t: real, since: nat) {
    exists f, n: nat :: t - CACHE_TTL < f && since <= n && Given(w, key, answer, f, n)
  }

  /** Nothing in the past is dated later than the clock. */
  ghost predicate Dated(w: World) {
    && (forall i :: 0 <= i < |w.history| ==> w.history[i].at <= w.clock)
    && (forall x :: x in w.failures ==> x.at <= w.clock && x.writes <= |w.history|)
  }

  /** Answers about `key` that a read begun at `from` or later can still get reflect the first
      `since` writes, and so does what such a read has returned. Nothing is said of what the
      `early` readers return, which began before. */
  ghost predicate Invariant(w: World, key: Name, since: nat, from: real, early: set<int>) {
    && since <= |w.history| && from <= w.clock && Dated(w)
    && (key in w.cache && w.cache[key].expiresAt > from ==>
          GivenSince(w, key, w.cache[key].state, w.cache[key].expiresAt - CACHE_TTL, since))
    && (forall id :: id in w.readers ==> ReaderInvariant(w, key, since, from, id in early, w.readers[id]))
  }

  ghost predicate ReaderInvariant(w: World, key: Name, since: nat, from: real, early: bool, r: Reader) {
    && (r.Idle? || (r.t <= w.clock && (early || from <= r.t)))
    && match r
       case Fetched(k, t, answer) => k == key && t + CACHE_TTL > from ==> GivenSince(w, key, answer, t, since)
       case Returned(k, t, answer) => k == key && !early ==> Reflects(w, key, answer, t, since)
       case _ => true
  }

  lemma GivenLater(w: World, v: World, key: Name, answer: Option<SessionState>, f: real, n: nat)
    requires Given(w, key, answer, f, n)
    requires w.clock <= v.clock && w.failures <= v.failures
    requires |w.history| <= |v.history| && v.history[..|w.history|] == w.history
    requires forall i :: |w.history| <= i < |v.history| ==> v.history[i].at >= w.clock
    ensures Given(v, key, answer, f, n)
  {
    assert v.history[..n] == w.history[..n];
    assert forall i :: 0 <= i < |w.history| ==> v.history[i] == w.history[i];
  }

  /** Answers given before a step are still given after it. */
  lemma StepKeepsGiven(w: World, e: Event, key: Name, since: nat)
    requires Dated(w)
    ensures Dated(Next(w, e))
    ensures forall answer, f, n: nat :: Given(w, key, answer, f, n) ==> Given(Next(w, e), key, answer, f, n)
    ensures forall answer, from :: GivenSince(w, key, answer, from, since) ==>
              GivenSince(Next(w, e), key, answer, from, since)
  {
    var v := Next(w, e);
    assert v.history[..|w.history|] == w.history;
    forall answer, f, n: nat | Given(w, key, answer, f, n) ensures Given(v, key, answer, f, n) {
      GivenLater(w, v, key, answer, f, n);
    }
  }

  /** The one reader an event moves on. */
  lemma MovedReader(w: World, e: Event, key: Name, since: nat, from: real, early: set<int>, id: int)
    requires Invariant(w, key, since, from, early) && id in Next(w, e).readers
    requires id !in w.readers || Next(w, e).readers[id] != w.readers[id]
    ensures ReaderInvariant(Next(w, e), key, since, from, id in early, Next(w, e).readers[id])
  {
    var v := Next(w, e);
    StepKeepsGiven(w, e, key, since);
    match e
    case Lookup(_) => ReaderAfterLookup(w, v, key, since, from, early, id);
    case Fetch(_, _) =>
      if ReaderOf(w, id).key == key {
        assert w.history[..|w.history|] == w.history;
        assert Given(v, key, v.readers[id].answer, w.clock, |w.history|);
      }
    case _ =>
  }

  lemma StepKeepsInvariant(w: World, e: Event, key: Name, since: nat, from: real, early: set<int>)
    requires Invariant(w, key, since, from, early)
    ensures Invariant(Next(w, e), key, since, from, early - if e.Begin? then {e.id} else {})
  {
    var v, later := Next(w, e), early - if e.Begin? then {e.id} else {};
    StepKeepsGiven(w, e, key, since);
    forall id | id in v.readers ensures ReaderInvariant(v, key, since, from, id in later, v.readers[id]) {
      if e.Begin? && id == e.id {
      } else if id in w.readers && v.readers[id] == w.readers[id] {
        assert ReaderInvariant(w, key, since, from, id in early, w.readers[id]);
      } else {
        MovedReader(w, e, key, since, from, early, id);
      }
    }
  }

  lemma ReaderAfterLookup(w: World, v: World, key: Name, since: nat, from: real, early: set<int>, id: int)
    requires Invariant(w, key, since, from, early) && ReaderOf(w, id).Started? && v == Next(w, Lookup(id))
    ensures ReaderInvariant(v, key, since, from, id in early, v.readers[id])
  {
    var r := ReaderOf(w, id);
    if r.key == key && id !in early && Hit(w.cache, key, r.t).Some? {
      var f, n: nat :| w.cache[key].expiresAt - CACHE_TTL <= f && since <= n && Given(w, key, w.cache[key].state, f, n);
      assert Given(v, key, v.readers[id].answer, f, n);
    }
  }

  lemma {:induction false} RunKeepsInvariant(w: World, es: seq<Event>, key: Name, since: nat, from: real,
                                             early: set<int>)
    requires Invariant(w, key, since, from, early)
    ensures Invariant(Run(w, es), key, since, from, early - Begun(es))
  {
    if es != [] {
      var front, last := es[..|es| - 1], es[|es| - 1];
      RunKeepsInvariant(w, front, key, since, from, early);
      StepKeepsInvariant(Run(w, front), last, key, since, from, early - Begun(front));
      assert early - Begun(es) == early - Begun(front) - if last.Begin? then {last.id} else {};
    } else {
      assert early - Begun(es) == early;
    }
  }

  /** Main result on staleness. Under every interleaving a read that took the time at `t`
      returns an answer the database gave after `t` less 60 seconds, no session included. */
  lemma BoundedStaleness(es: seq<Event>, id: int)
    requires ReaderOf(Run(START, es), id).Returned?
    ensures var w, r := Run(START, es), ReaderOf(Run(START, es), id);
            exists f, n: nat :: r.t - 60.0 < f && Given(w, r.key, r.answer, f, n)
  {
    var key := ReaderOf(Run(START, es), id).key;
    RunKeepsInvariant(START, es, key, 0, 0.0, {});
    assert ReaderInvariant(Run(START, es), key, 0, 0.0, false, ReaderOf(Run(START, es), id));
  }

  /** A setting is never returned to a read 24 hours and 60 seconds after its last renewal. */
  lemma ExpiredNeverReturned(es: seq<Event>, id: int)
    requires ReaderOf(Run(START, es), id).Returned? && ReaderOf(Run(START, es), id).answer.Some?
    ensures var w, r := Run(START, es), ReaderOf(Run(START, es), id);
            exists n: nat :: n <= |w.history| && RowAfter(w.history[..n], r.key).Some?
              && var row := RowAfter(w.history[..n], r.key).value;
                 && r.answer.value == SessionState(NonEmpty(row.version), NonEmpty(row.profile))
                 && r.t < row.updatedAt + 86400.0 + 60.0
  {
    BoundedStaleness(es, id);
  }

  // ----- When a setting just made is seen -----

  /** Every read of the key begun from `w` on reflects the first `since` writes. */
  ghost predicate SeenFrom(w: World, key: Name, since: nat) {
    forall es, id | id in Begun(es) :: ReadReflects(Run(w, es), key, since, ReaderOf(Run(w, es), id))
  }

  ghost predicate ReadReflects(w: World, key: Name, since: nat, r: Reader) {
    r.Returned? && r.key == key ==> Reflects(w, key, r.answer, r.t, since)
  }

  /** A reader holds an answer that could still be hit once cached, but that the database has
      not given since those writes. */
  ghost predicate OutdatedInFlight(w: World, key: Name, since: nat) {
    exists id :: HoldsOutdated(w, key, since, id)
  }

  ghost predicate HoldsOutdated(w: World, key: Name, since: nat, id: int) {
    var r := ReaderOf(w, id);
    r.Fetched? && r.key == key && w.clock < r.t + CACHE_TTL && !Reflects(w, key, r.answer, w.clock, since)
  }

  /** Filling in an answer that is still in time makes it the answer of a read begun next. */
  lemma FillThenRead(w: World, key: Name, slow: int, next: int)
    requires ReaderOf(w, slow).Fetched? && ReaderOf(w, slow).key == key && slow != next
    requires w.clock < ReaderOf(w, slow).t + CACHE_TTL
    ensures var v := Run(w, [Fill(slow), Begin(next, key), Lookup(next)]);
            && ReaderOf(v, next) == Returned(key, w.clock, ReaderOf(w, slow).answer)
            && v.history == w.history && v.clock == w.clock && v.failures == w.failures
  {
    RunThree(w, Fill(slow), Begin(next, key), Lookup(next));
  }

  lemma RunThree(w: World, a: Event, b: Event, c: Event)
    ensures Run(w, [a, b]) == Next(Next(w, a), b)
    ensures Run(w, [a, b, c]) == Next(Next(Next(w, a), b), c)
  {
    assert [a, b, c][..2] == [a, b] && [a, b][..1] == [a] && [a][..0] == [];
    assert Run(w, [a]) == Next(w, a);
  }

  lemma {:induction false} RunConcat(w: World, a: seq<Event>, b: seq<Event>)
    ensures Run(w, a + b) == Run(Run(w, a), b)
  {
    if b == [] {
      assert a + b == a;
    } else {
      assert (a + b)[..|a + b| - 1] == a + b[..|b| - 1];
      RunConcat(w, a, b[..|b| - 1]);
    }
  }

  /** What a reader holds was given no earlier than its read began; an answer that was given
      again after the writes was so after that as well. */
  lemma HeldReflects(w: World, key: Name, since: nat, id: int)
    requires Invariant(w, key, 0, 0.0, {}) && since <= |w.history|
    requires ReaderOf(w, id).Fetched? && ReaderOf(w, id).key == key
    requires w.clock < ReaderOf(w, id).t + CACHE_TTL && !HoldsOutdated(w, key, since, id)
    ensures GivenSince(w, key, ReaderOf(w, id).answer, ReaderOf(w, id).t, since)
  {
    var r := ReaderOf(w, id);
    assert ReaderInvariant(w, key, 0, 0.0, false, r);
    var f0, n0: nat :| r.t <= f0 && Given(w, key, r.answer, f0, n0);
    var f, n: nat :| w.clock - CACHE_TTL < f && since <= n && Given(w, key, r.answer, f, n);
    if n0 < since {
      assert f0 <= w.history[n0].at <= f;
    }
  }

  /** Main result on visibility. In a reachable world where the key is not cached, as a set
      call leaves it, every read begun from there on reflects the first `since` writes exactly
      when no reader holds an answer from before them that differs from all since and that is
      still in time to be hit. */
  lemma SetIsSeenIff(past: seq<Event>, key: Name, since: nat)
    requires key !in Run(START, past).cache && since <= |Run(START, past).history|
    ensures SeenFrom(Run(START, past), key, since) <==> !OutdatedInFlight(Run(START, past), key, since)
  {
    var w := Run(START, past);
    RunKeepsInvariant(START, past, key, 0, 0.0, {});
    if slow :| HoldsOutdated(w, key, since, slow) {
      var next := FreeReader(w);
      var es := [Fill(slow), Begin(next, key), Lookup(next)];
      FillThenRead(w, key, slow, next);
      SameGiven(w, Run(w, es), key, ReaderOf(w, slow).answer, since);
      assert !ReadReflects(Run(w, es), key, since, ReaderOf(Run(w, es), next));
      assert !SeenFrom(w, key, since);
    } else {
      NoneOutdatedSeen(w, key, since);
    }
  }

  lemma SameGiven(w: World, v: World, key: Name, answer: Option<SessionState>, since: nat)
    requires v.history == w.history && v.clock == w.clock && v.failures == w.failures
    ensures Reflects(v, key, answer, w.clock, since) ==> Reflects(w, key, answer, w.clock, since)
  {
    if f, n: nat :| w.clock - CACHE_TTL < f && since <= n && Given(v, key, answer, f, n) {
      assert Given(w, key, answer, f, n);
    }
  }

  lemma NoneOutdatedSeen(w: World, key: Name, since: nat)
    requires Invariant(w, key, 0, 0.0, {}) && key !in w.cache && since <= |w.history|
    requires !OutdatedInFlight(w, key, since)
    ensures SeenFrom(w, key, since)
  {
    var early := set id | id in w.readers && !w.readers[id].Idle?;
    forall id | id in w.readers ensures ReaderInvariant(w, key, since, w.clock, id in early, w.readers[id]) {
      assert ReaderInvariant(w, key, 0, 0.0, false, w.readers[id]);
      var r := w.readers[id];
      if r.Fetched? && r.key == key && w.clock < r.t + CACHE_TTL {
        HeldReflects(w, key, since, id);
      }
    }
    forall es, id | id in Begun(es) ensures ReadReflects(Run(w, es), key, since, ReaderOf(Run(w, es), id)) {
      RunKeepsInvariant(w, es, key, since, w.clock, early);
    }
  }

  lemma FreeReader(w: World) returns (id: int)
    ensures id !in w.readers
  {
    id := Above(w.readers.Keys);
  }

  lemma {:induction false} Above(s: set<int>) returns (top: int)
    ensures forall x :: x in s ==> x < top
    decreases |s|
  {
    top := 0;
    if exists x :: x in s {
      var x :| x in s;
      var rest := Above(s - {x});
      top := if rest > x then rest else x + 1;
      forall y | y in s ensures y < top {
        assert y == x || y in s - {x};
      }
    }
  }

  /** No answer about the key is cached, and no read has got one and not yet left. */
  ghost predicate Quiet(w: World, key: Name) {
    && key !in w.cache
    && forall id :: id in w.readers && !w.readers[id].Idle? && w.readers[id].key == key ==>
         w.readers[id].Started? || w.readers[id].Missed?
  }

  /** Reads already begun are covered as well when none of the key has got an answer yet. */
  lemma SetIsSeen(past: seq<Event>, es: seq<Event>, key: Name, id: int)
    requires Quiet(Run(START, past), key)
    requires ReaderOf(Run(Run(START, past), es), id).Returned? && ReaderOf(Run(Run(START, past), es), id).key == key
    ensures var w, v := Run(START, past), Run(Run(START, past), es);
            Reflects(v, key, ReaderOf(v, id).answer, ReaderOf(v, id).t, |w.history|)
  {
    var w, v := Run(START, past), Run(Run(START, past), es);
    RunKeepsInvariant(START, past, key, 0, 0.0, {});
    forall i | i in w.readers ensures ReaderInvariant(w, key, |w.history|, 0.0, false, w.readers[i]) {
      assert ReaderInvariant(w, key, 0, 0.0, false, w.readers[i]);
    }
    RunKeepsInvariant(w, es, key, |w.history|, 0.0, {});
    assert ReaderInvariant(v, key, |w.history|, 0.0, false, ReaderOf(v, id));
  }

  /** The same for a set call that nothing interrupts: the next reads reflect it exactly when
      no reader holds, still in time, anything else than what the database answers now. */
  lemma SetCallSeenIff(past: seq<Event>, key: Name, patch: Patch)
    ensures var w := Run(START, past + [Upsert(key, patch), Invalidate(key)]);
            SeenFrom(w, key, |w.history|) <==>
              forall id :: ReaderOf(w, id).Fetched? && ReaderOf(w, id).key == key
                           && w.clock < ReaderOf(w, id).t + 60.0 ==>
                ReaderOf(w, id).answer == Query(RowAfter(w.history, key), w.clock)
  {
    var es := [Upsert(key, patch), Invalidate(key)];
    var w0, w := Run(START, past), Run(START, past + es);
    RunConcat(START, past, es);
    RunThree(w0, Upsert(key, patch), Invalidate(key), Invalidate(key));
    RunKeepsInvariant(START, past, key, 0, 0.0, {});
    SetIsSeenIff(past + es, key, |w.history|);
    forall id | ReaderOf(w, id).Fetched? && ReaderOf(w, id).key == key && w.clock < ReaderOf(w, id).t + CACHE_TTL
      ensures HoldsOutdated(w, key, |w.history|, id) <==>
                ReaderOf(w, id).answer != Query(RowAfter(w.history, key), w.clock)
    {
      OnlyNow(w, key, ReaderOf(w, id).answer);
    }
  }

  /** Right after a write, what the database has given since is what it gives now. */
  lemma OnlyNow(w: World, key: Name, answer: Option<SessionState>)
    requires Dated(w) && w.history != [] && w.history[|w.history| - 1].at == w.clock
    requires forall x :: x in w.failures ==> x.writes < |w.history|
    ensures Reflects(w, key, answer, w.clock, |w.history|) <==> answer == Query(RowAfter(w.history, key), w.clock)
  {
    assert w.history[..|w.history|] == w.history;
    if answer == Query(RowAfter(w.history, key), w.clock) {
      assert Given(w, key, answer, w.clock, |w.history|);
    }
  }

  /** A run from the start on which a read begun after a set call returns no session, although
      the setting is in the database: a read that had fetched before it filled the cache. */
  lemma SetHiddenByFetch(key: Name)
    ensures var w := Run(START, [Begin(1, key), Lookup(1), Fetch(1, true)]
                                + [Upsert(key, SetVersion(Name("17.0"))), Invalidate(key)]);
            var v := Run(w, [Fill(1), Begin(2, key), Lookup(2)]);
            && key !in w.cache && !SeenFrom(w, key, |w.history|)
            && ReaderOf(v, 2) == Returned(key, 0.0, None)
            && Query(RowAfter(v.history, key), v.clock) == Some(SessionState(Some(Name("17.0")), None))
  {
    var past, patch := [Begin(1, key), Lookup(1), Fetch(1, true)], SetVersion(Name("17.0"));
    var w := Run(START, past + [Upsert(key, patch), Invalidate(key)]);
    FetchThenSet(key, patch);
    SetCallSeenIff(past, key, patch);
    FillThenRead(w, key, 1, 2);
  }

  lemma FetchThenSet(key: Name, patch: Patch)
    ensures var w := Run(START, [Begin(1, key), Lookup(1), Fetch(1, true)] + [Upsert(key, patch), Invalidate(key)]);
            && w.clock == 0.0 && key !in w.cache && ReaderOf(w, 1) == Fetched(key, 0.0, None)
            && w.history == [Write(key, patch, 0.0)] && RowAfter(w.history, key) == Some(Upserted(None, patch, 0.0))
  {
    var past, call := [Begin(1, key), Lookup(1), Fetch(1, true)], [Upsert(key, patch), Invalidate(key)];
    RunThree(START, Begin(1, key), Lookup(1), Fetch(1, true));
    assert ReaderOf(Run(START, past), 1) == Fetched(key, 0.0, None) && Run(START, past).history == [];
    RunConcat(START, past, call);
    RunThree(Run(START, past), Upsert(key, patch), Invalidate(key), Invalidate(key));
    assert [Write(key, patch, 0.0)][..0] == [];
  }

  // ----- One call at a time -----

  /** The steps of a read, taken without interruption, are `get_session_state`. */
  lemma ReadStepsAreCall(w: World, id: int, key: Name, queried: real, reachable: bool)
    requires queried >= w.clock
    ensures var v := Run(w, [Begin(id, key), Lookup(id)] + [Tick(queried), Fetch(id, reachable), Fill(id)]);
            var (cache, answer) := ReadAlone(w.cache, w.history, key, w.clock, queried, reachable);
            v.cache == cache && v.history == w.history && ReaderOf(v, id) == Returned(key, w.clock, answer)
  {
    var asked := Run(w, [Begin(id, key), Lookup(id)]);
    RunThree(w, Begin(id, key), Lookup(id), Lookup(id));
    RunConcat(w, [Begin(id, key), Lookup(id)], [Tick(queried), Fetch(id, reachable), Fill(id)]);
    RunThree(asked, Tick(queried), Fetch(id, reachable), Fill(id));
    LookupStep(w, id, key);
    AnswerSteps(asked, id, queried, reachable);
  }

  lemma LookupStep(w: World, id: int, key: Name)
    ensures var asked := Next(Next(w, Begin(id, key)), Lookup(id));
            var hit := Hit(w.cache, key, w.clock);
            && asked.cache == w.cache && asked.history == w.history && asked.clock == w.clock
            && ReaderOf(asked, id) == if hit.Some? then Returned(key, w.clock, hit.value) else Missed(key, w.clock)
  {
  }

  lemma AnswerSteps(w: World, id: int, queried: real, reachable: bool)
    requires queried >= w.clock && (ReaderOf(w, id).Missed? || ReaderOf(w, id).Returned?)
    ensures var v, r := Next(Next(Next(w, Tick(queried)), Fetch(id, reachable)), Fill(id)), ReaderOf(w, id);
            var state := if reachable then Query(RowAfter(w.history, r.key), queried) else None;
            v.history == w.history &&
            if r.Returned? then v.cache == w.cache && ReaderOf(v, id) == r
            else v.cache == Filled(w.cache, r.key, state, r.t) && ReaderOf(v, id) == Returned(r.key, r.t, state)
  {
  }

  /** Those of a set call are `set_active_version_db` and `set_active_profile_db`. */
  lemma SetStepsAreCall(w: World, key: Name, patch: Patch)
    ensures var v := Run(w, [Upsert(key, patch), Invalidate(key)]);
            v.cache == w.cache - {key} && v.history == w.history + [Write(key, patch, w.clock)]
  {
    RunThree(w, Upsert(key, patch), Invalidate(key), Invalidate(key));
  }
}
