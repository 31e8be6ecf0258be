/** The LRU + TTL cache of rendered resource bodies (`src/mcp/resources.py`).
    The `OrderedDict` is its key order, least recently used first, plus its entries. */
module ResourceCache {
  import opened Common

  datatype Uri = Uri(text: string)

  datatype Entry = Entry(value: string, mimeType: string, fetchedAt: real)

  datatype State = State(order: seq<Uri>, entries: map<Uri, Entry>)

  const EMPTY: State := State([], map[])

  /** One timed call; the clock reading is the one the call makes under the lock. */
  datatype Event =
    | Get(key: Uri, now: real)
    | Put(key: Uri, value: string, mimeType: string, now: real)

  ghost predicate Consistent(st: State) {
    NoDup(st.order) && Elems(st.order) == st.entries.Keys
  }

  // ----- Key orders -----

  /** The keys of `o` that are in `ks`, in the order of `o`. */
  function Keep(o: seq<Uri>, ks: set<Uri>): (r: seq<Uri>)
    ensures Elems(r) == Elems(o) * ks
    ensures NoDup(o) ==> NoDup(r)
  {
    if o == [] then []
    else
      var front, last := o[..|o| - 1], o[|o| - 1];
      NoDupFront(o);
      NoDupAppend(Keep(front, ks), last);
      if last in ks then Keep(front, ks) + [last] else Keep(front, ks)
  }

  function Without(o: seq<Uri>, k: Uri): seq<Uri> {
    Keep(o, Elems(o) - {k})
  }

  lemma {:induction false} KeepAgree(o: seq<Uri>, a: set<Uri>, b: set<Uri>)
    requires Elems(o) * a == Elems(o) * b
    ensures Keep(o, a) == Keep(o, b)
  {
    if o != [] {
      var front := o[..|o| - 1];
      assert forall x :: x in front ==> x in o;
      assert forall x :: x in front ==> (x in a <==> x in Elems(o) * a) && (x in b <==> x in Elems(o) * b);
      assert o[|o| - 1] in a <==> o[|o| - 1] in Elems(o) * a;
      assert o[|o| - 1] in b <==> o[|o| - 1] in Elems(o) * b;
      KeepAgree(front, a, b);
    }
  }

  lemma {:induction false} KeepKeep(o: seq<Uri>, a: set<Uri>, b: set<Uri>)
    ensures Keep(Keep(o, a), b) == Keep(o, a * b)
  {
    if o != [] {
      var front := o[..|o| - 1];
      KeepKeep(front, a, b);
      var r := Keep(front, a);
      if o[|o| - 1] in a {
        assert (r + [o[|o| - 1]])[..|r|] == r;
      }
    }
  }

  lemma {:induction false} KeepAll(o: seq<Uri>, a: set<Uri>)
    requires Elems(o) <= a
    ensures Keep(o, a) == o
  {
    if o != [] {
      var front := o[..|o| - 1];
      assert forall x :: x in front ==> x in o;
      assert o[|o| - 1] in Elems(o);
      KeepAll(front, a);
    }
  }

  lemma {:induction false} KeepTail(o: seq<Uri>, a: set<Uri>)
    requires o != []
    ensures o[0] in a ==> Keep(o, a) != [] && Keep(o, a)[0] == o[0]
    ensures Keep(o[1..], a) == if o[0] in a then Keep(o, a)[1..] else Keep(o, a)
  {
    var front := o[..|o| - 1];
    if |o| == 1 {
      assert front == [] && o[1..] == [];
    } else {
      KeepTail(front, a);
      assert o[1..][..|o| - 2] == front[1..];
    }
  }

  lemma WithoutLength(o: seq<Uri>, k: Uri)
    requires NoDup(o)
    ensures |Without(o, k)| == if k in o then |o| - 1 else |o|
    ensures k !in o ==> Without(o, k) == o
  {
    WithoutShape(o, k);
  }

  lemma WithoutShape(o: seq<Uri>, k: Uri)
    requires NoDup(o)
    ensures NoDup(Without(o, k)) && Elems(Without(o, k)) == Elems(o) - {k}
    ensures |Without(o, k)| == if k in o then |o| - 1 else |o|
    ensures k !in o ==> Without(o, k) == o
    ensures NoDup(Without(o, k) + [k]) && Elems(Without(o, k) + [k]) == Elems(o) + {k}
  {
    NoDupAppend(Without(o, k), k);
    NoDupCard(o);
    NoDupCard(Without(o, k));
    if k in o {
      assert Elems(o) == Elems(Without(o, k)) + {k};
    } else {
      KeepAll(o, Elems(o) - {k});
    }
  }

  lemma WithoutHead(o: seq<Uri>)
    requires NoDup(o) && o != []
    ensures Without(o, o[0]) == o[1..]
    ensures NoDup(o[1..]) && Elems(o[1..]) == Elems(o) - {o[0]}
  {
    NoDupTail(o);
    KeepTail(o, Elems(o) - {o[0]});
    KeepAll(o[1..], Elems(o) - {o[0]});
  }

  // ----- The cache as a state function -----

  predicate Expired(e: Entry, ttl: real, now: real) {
    now - e.fetchedAt > ttl
  }

  /** What `get` returns. */
  function Answer(st: State, ttl: real, key: Uri, now: real): Option<(string, string)> {
    if key in st.entries && !Expired(st.entries[key], ttl, now)
    then Some((st.entries[key].value, st.entries[key].mimeType))
    else None
  }

  /** `get`: an expired entry is dropped, a hit moves its key to the recent end. */
  function AfterGet(st: State, ttl: real, key: Uri, now: real): State {
    if key !in st.entries then st
    else if Expired(st.entries[key], ttl, now) then State(Without(st.order, key), st.entries - {key})
    else State(Without(st.order, key) + [key], st.entries)
  }

  /** Drop least recently used entries until the capacity holds. */
  function Trim(st: State, capacity: nat): State
    decreases |st.order|
  {
    if |st.order| <= capacity then st
    else Trim(State(st.order[1..], st.entries - {st.order[0]}), capacity)
  }

  /** `put`: overwrite in place and bump, or append and evict. */
  function AfterPut(st: State, capacity: nat, key: Uri, e: Entry): State {
    if key in st.entries then State(Without(st.order, key) + [key], st.entries[key := e])
    else Trim(State(st.order + [key], st.entries[key := e]), capacity)
  }

  function Step(st: State, capacity: nat, ttl: real, ev: Event): State {
    match ev
    case Get(key, now) => AfterGet(st, ttl, key, now)
    case Put(key, value, mimeType, now) => AfterPut(st, capacity, key, Entry(value, mimeType, now))
  }

  function Run(capacity: nat, ttl: real, trace: seq<Event>): State {
    if trace == [] then EMPTY
    else Step(Run(capacity, ttl, trace[..|trace| - 1]), capacity, ttl, trace[|trace| - 1])
  }

  // ----- The class -----

  class ResourceCache {
    const capacity: nat
    const ttl: real
    var order: seq<Uri>
    var entries: map<Uri, Entry>

    ghost predicate Valid() reads this {
      capacity >= 1 && ttl > 0.0 && Consistent(Contents()) && |order| <= capacity
    }

    ghost function Contents(): State reads this {
      State(order, entries)
    }

    constructor (capacity: nat, ttl: real)
      requires capacity >= 1 && ttl > 0.0
      ensures Valid() && Contents() == EMPTY && this.capacity == capacity && this.ttl == ttl
    {
      this.capacity := capacity;
      this.ttl := ttl;
      order, entries := [], map[];
    }

    /** The checked construction: a capacity below 1 or a ttl not above 0 is refused. */
    static method Create(capacity: int, ttl: real) returns (r: Result<ResourceCache, string>)
      ensures r.Ok? <==> capacity >= 1 && ttl > 0.0
      ensures r.Ok? ==> fresh(r.value) && r.value.Valid() && r.value.Contents() == EMPTY
      ensures r.Ok? ==> r.value.capacity == capacity && r.value.ttl == ttl
    {
      if capacity < 1 {
        return Err("capacity");
      }
      if ttl <= 0.0 {
        return Err("ttl");
      }
      var c := new ResourceCache(capacity, ttl);
      return Ok(c);
    }

    method Get(key: Uri, now: real) returns (r: Option<(string, string)>)
      requires Valid()
      modifies this
      ensures Valid()
      ensures r == Answer(old(Contents()), ttl, key, now)
      ensures Contents() == Step(old(Contents()), capacity, ttl, Event.Get(key, now))
    {
      StepKeepsConsistent(Contents(), capacity, ttl, Event.Get(key, now));
      if key !in entries {
        return None;
      }
      var entry := entries[key];
      if now - entry.fetchedAt > ttl {
        order := Without(order, key);
        entries := entries - {key};
        return None;
      }
      order := Without(order, key) + [key];
      return Some((entry.value, entry.mimeType));
    }

    method Put(key: Uri, value: string, mimeType: string, now: real)
      requires Valid()
      modifies this
      ensures Valid()
      ensures Contents() == Step(old(Contents()), capacity, ttl, Event.Put(key, value, mimeType, now))
    {
      ghost var after := Step(Contents(), capacity, ttl, Event.Put(key, value, mimeType, now));
      StepKeepsConsistent(Contents(), capacity, ttl, Event.Put(key, value, mimeType, now));
      if key in entries {
        order := Without(order, key) + [key];
        entries := entries[key := Entry(value, mimeType, now)];
        return;
      }
      order := order + [key];
      entries := entries[key := Entry(value, mimeType, now)];
      while |order| > capacity
        invariant Trim(Contents(), capacity) == after
        decreases |order|
      {
        entries := entries - {order[0]};
        order := order[1..];
      }
    }

    /** The value is computed without the lock; its clock reading comes second. */
    method GetOrCompute(key: Uri, compute: () -> (string, string), getNow: real, putNow: real)
      returns (r: (string, string))
      requires Valid()
      modifies this
      ensures Valid()
      ensures var hit := Answer(old(Contents()), ttl, key, getNow);
              var afterGet := Step(old(Contents()), capacity, ttl, Event.Get(key, getNow));
              if hit.Some? then r == hit.value && Contents() == afterGet
              else r == compute() &&
                   Contents() == Step(afterGet, capacity, ttl, Event.Put(key, compute().0, compute().1, putNow))
    {
      var cached := Get(key, getNow);
      if cached.Some? {
        return cached.value;
      }
      r := compute();
      Put(key, r.0, r.1, putNow);
    }
  }

  // ----- Every reachable state is consistent and within capacity -----

  lemma StepKeepsConsistent(st: State, capacity: nat, ttl: real, ev: Event)
    requires Consistent(st) && |st.order| <= capacity && capacity >= 1
    ensures Consistent(Step(st, capacity, ttl, ev))
    ensures |Step(st, capacity, ttl, ev).order| <= capacity
  {
    var k := ev.key;
    WithoutShape(st.order, k);
    if ev.Put? && k !in st.entries {
      TrimOne(State(st.order + [k], st.entries[k := Entry(ev.value, ev.mimeType, ev.now)]), capacity);
    }
  }

  /** A put of a new key appends it, and at most one entry, the first, is evicted. */
  lemma TrimOne(st: State, capacity: nat)
    requires Consistent(st) && |st.order| <= capacity + 1
    ensures Consistent(Trim(st, capacity)) && |Trim(st, capacity).order| <= capacity
    ensures Trim(st, capacity) ==
            if |st.order| <= capacity then st else State(st.order[1..], st.entries - {st.order[0]})
  {
    if |st.order| > capacity {
      WithoutHead(st.order);
      var t := State(st.order[1..], st.entries - {st.order[0]});
      assert Trim(st, capacity) == Trim(t, capacity);
    }
  }

  /** What a step can do to the entries and to the order. */
  lemma StepShape(st: State, capacity: nat, ttl: real, ev: Event)
    requires Consistent(st) && |st.order| <= capacity && capacity >= 1
    ensures var after := Step(st, capacity, ttl, ev);
            && after.entries.Keys <= st.entries.Keys + {ev.key}
            && (forall k :: k in after.entries && !(ev.Put? && k == ev.key) ==>
                  k in st.entries && after.entries[k] == st.entries[k])
            && (ev.Put? ==> ev.key in after.entries)
            && (ev.Put? ==> after.entries[ev.key] == Entry(ev.value, ev.mimeType, ev.now))
    ensures var o, w := Step(st, capacity, ttl, ev).order, Without(st.order, ev.key);
            || o == w
            || ((ev.Put? || Answer(st, ttl, ev.key, ev.now).Some?) && (o == w + [ev.key] || o == (w + [ev.key])[1..]))
  {
    var k := ev.key;
    WithoutLength(st.order, k);
    if ev.Put? && k !in st.entries {
      var e := Entry(ev.value, ev.mimeType, ev.now);
      WithoutShape(st.order, k);
      TrimOne(State(st.order + [k], st.entries[k := e]), capacity);
    }
  }

  lemma {:induction false} RunConsistent(capacity: nat, ttl: real, trace: seq<Event>)
    requires capacity >= 1
    ensures Consistent(Run(capacity, ttl, trace)) && |Run(capacity, ttl, trace).order| <= capacity
    ensures |Run(capacity, ttl, trace).entries| <= capacity
  {
    if trace != [] {
      var past := trace[..|trace| - 1];
      RunConsistent(capacity, ttl, past);
      StepKeepsConsistent(Run(capacity, ttl, past), capacity, ttl, trace[|trace| - 1]);
    }
    NoDupCard(Run(capacity, ttl, trace).order);
  }

  // ----- A larger cache never loses a hit -----

  /** The small cache is the large one with some keys struck out, and the large
      one holds no more extra keys than it has extra capacity. */
  ghost predicate Included(small: State, large: State, slack: nat) {
    && small.entries.Keys <= large.entries.Keys
    && (forall k :: k in small.entries ==> small.entries[k] == large.entries[k])
    && small.order == Keep(large.order, small.entries.Keys)
    && |large.order| <= |small.order| + slack
  }

  lemma BumpIncluded(small: State, large: State, k: Uri)
    requires Consistent(small) && Consistent(large)
    requires small.order == Keep(large.order, small.entries.Keys)
    ensures Without(small.order, k) == Keep(Without(large.order, k), small.entries.Keys - {k})
    ensures Keep(Without(large.order, k) + [k], small.entries.Keys + {k}) == Without(small.order, k) + [k]
    ensures Keep(Without(large.order, k) + [k], small.entries.Keys - {k}) == Without(small.order, k)
  {
    var ks, o := small.entries.Keys, large.order;
    KeepKeep(o, ks, Elems(small.order) - {k});
    KeepKeep(o, Elems(o) - {k}, ks - {k});
    KeepAgree(o, ks * (Elems(small.order) - {k}), (Elems(o) - {k}) * (ks - {k}));
    var w := Without(o, k);
    assert (w + [k])[..|w|] == w;
    KeepAgree(w, ks + {k}, ks - {k});
  }

  lemma DropIncluded(small: State, large: State, slack: nat, k: Uri)
    requires Consistent(small) && Consistent(large) && Included(small, large, slack) && k in large.entries
    ensures Included(State(Without(small.order, k), small.entries - {k}),
                     State(Without(large.order, k), large.entries - {k}), slack)
  {
    BumpIncluded(small, large, k);
    WithoutLength(small.order, k);
    WithoutLength(large.order, k);
    assert (small.entries - {k}).Keys == small.entries.Keys - {k};
  }

  lemma HitIncluded(small: State, large: State, slack: nat, k: Uri)
    requires Consistent(small) && Consistent(large) && Included(small, large, slack) && k in large.entries
    ensures Included(if k in small.entries then State(Without(small.order, k) + [k], small.entries) else small,
                     State(Without(large.order, k) + [k], large.entries), slack)
  {
    var ks := small.entries.Keys;
    BumpIncluded(small, large, k);
    WithoutLength(small.order, k);
    WithoutLength(large.order, k);
    assert if k in ks then ks + {k} == ks else ks - {k} == ks;
  }

  lemma GetIncluded(small: State, large: State, slack: nat, ttl: real, k: Uri, now: real)
    requires Consistent(small) && Consistent(large) && Included(small, large, slack)
    ensures Included(AfterGet(small, ttl, k, now), AfterGet(large, ttl, k, now), slack)
  {
    if k in large.entries && Expired(large.entries[k], ttl, now) {
      DropIncluded(small, large, slack, k);
      WithoutLength(small.order, k);
      assert k !in small.entries ==> small.entries - {k} == small.entries;
    } else if k in large.entries {
      HitIncluded(small, large, slack, k);
    }
  }

  lemma Refreshed(st: State, k: Uri, e: Entry) returns (r: State)
    requires Consistent(st)
    ensures r == State(Without(st.order, k) + [k], st.entries[k := e]) && Consistent(r)
    ensures r.entries.Keys == st.entries.Keys + {k}
  {
    r := State(Without(st.order, k) + [k], st.entries[k := e]);
    WithoutShape(st.order, k);
  }

  /** A put on the large side first makes `k` its most recent key; on the small
      side `k` is then its most recent key as well. */
  lemma PutUntrimmed(small: State, large: State, k: Uri, e: Entry) returns (s1: State, l1: State)
    requires Consistent(small) && Consistent(large)
    requires small.entries.Keys <= large.entries.Keys
    requires forall k :: k in small.entries ==> small.entries[k] == large.entries[k]
    requires small.order == Keep(large.order, small.entries.Keys)
    ensures s1 == State(Without(small.order, k) + [k], small.entries[k := e]) && Consistent(s1)
    ensures l1 == State(Without(large.order, k) + [k], large.entries[k := e]) && Consistent(l1)
    ensures s1.entries.Keys <= l1.entries.Keys
    ensures forall k :: k in s1.entries ==> s1.entries[k] == l1.entries[k]
    ensures s1.order == Keep(l1.order, s1.entries.Keys)
  {
    s1 := Refreshed(small, k, e);
    l1 := Refreshed(large, k, e);
    BumpIncluded(small, large, k);
  }

  /** Striking the first key of the small side. */
  lemma StrikeFirst(s1: State, l1: State) returns (s2: State)
    requires Consistent(s1) && Consistent(l1) && s1.order != []
    requires s1.entries.Keys <= l1.entries.Keys
    requires s1.order == Keep(l1.order, s1.entries.Keys)
    ensures s2 == State(s1.order[1..], s1.entries - {s1.order[0]}) && Consistent(s2)
    ensures s2.order == Keep(l1.order, s2.entries.Keys)
  {
    var f := s1.order[0];
    s2 := State(s1.order[1..], s1.entries - {f});
    WithoutHead(s1.order);
    var ks := s1.entries.Keys;
    assert s2.entries.Keys == ks - {f};
    KeepKeep(l1.order, ks, Elems(s1.order) - {f});
    KeepAgree(l1.order, ks * (Elems(s1.order) - {f}), ks - {f});
  }

  lemma PutIncluded(small: State, large: State, c: nat, C: nat, k: Uri, e: Entry)
    requires 1 <= c <= C
    requires Consistent(small) && |small.order| <= c
    requires Consistent(large) && |large.order| <= C
    requires Included(small, large, C - c)
    ensures Included(AfterPut(small, c, k, e), AfterPut(large, C, k, e), C - c)
  {
    var s1, l1 := PutUntrimmed(small, large, k, e);
    WithoutShape(small.order, k);
    WithoutShape(large.order, k);
    if k !in small.entries {
      TrimOne(s1, c);
      var s2 := s1;
      if |s1.order| > c {
        s2 := StrikeFirst(s1, l1);
      }
      assert AfterPut(small, c, k, e) == s2;
      if k !in large.entries {
        TrimOne(l1, C);
        if |l1.order| > C {
          // the large cache is full, so the small one is too, and what the large one
          // loses is either not in the small one or its first key, lost as well
          KeepTail(l1.order, s1.entries.Keys);
          KeepTail(l1.order, s2.entries.Keys);
        }
      }
    }
  }

  lemma {:induction false} RunIncluded(c: nat, C: nat, ttl: real, trace: seq<Event>)
    requires 1 <= c <= C
    ensures Included(Run(c, ttl, trace), Run(C, ttl, trace), C - c)
  {
    if trace != [] {
      var past := trace[..|trace| - 1];
      RunIncluded(c, C, ttl, past);
      RunConsistent(c, ttl, past);
      RunConsistent(C, ttl, past);
      match trace[|trace| - 1]
      case Get(k, now) =>
        GetIncluded(Run(c, ttl, past), Run(C, ttl, past), C - c, ttl, k, now);
      case Put(k, value, mimeType, now) =>
        PutIncluded(Run(c, ttl, past), Run(C, ttl, past), c, C, k, Entry(value, mimeType, now));
    }
  }

  /** After any calls, a hit of the smaller cache is the same hit of the larger one. */
  lemma LargerCacheKeepsHits(c: nat, C: nat, ttl: real, trace: seq<Event>, key: Uri, now: real)
    requires 1 <= c <= C
    ensures Answer(Run(c, ttl, trace), ttl, key, now).Some? ==>
              Answer(Run(C, ttl, trace), ttl, key, now) == Answer(Run(c, ttl, trace), ttl, key, now)
  {
    RunIncluded(c, C, ttl, trace);
  }

  // ----- What a hit returns -----

  /** The entry the last put of `key` made. */
  function LatestPut(trace: seq<Event>, key: Uri): Option<Entry> {
    if trace == [] then None
    else
      var ev := trace[|trace| - 1];
      if ev.Put? && ev.key == key then Some(Entry(ev.value, ev.mimeType, ev.now))
      else LatestPut(trace[..|trace| - 1], key)
  }

  /** The abstract cache: the latest put of the key, when made at most `ttl` ago. */
  function LatestFreshPut(trace: seq<Event>, ttl: real, key: Uri, now: real): Option<(string, string)> {
    match LatestPut(trace, key)
    case Some(e) => if Expired(e, ttl, now) then None else Some((e.value, e.mimeType))
    case None => None
  }

  lemma {:induction false} EntriesAreLatestPuts(capacity: nat, ttl: real, trace: seq<Event>)
    requires capacity >= 1
    ensures forall k :: k in Run(capacity, ttl, trace).entries ==>
              LatestPut(trace, k) == Some(Run(capacity, ttl, trace).entries[k])
  {
    if trace != [] {
      var past, ev := trace[..|trace| - 1], trace[|trace| - 1];
      EntriesAreLatestPuts(capacity, ttl, past);
      RunConsistent(capacity, ttl, past);
      StepShape(Run(capacity, ttl, past), capacity, ttl, ev);
    }
  }

  // ----- Recency -----

  /** The position (from 1) of the last call that used `key`: a put of it, or a get
      of it that hit. 0 when there is none. */
  function LastUse(capacity: nat, ttl: real, trace: seq<Event>, key: Uri): (n: nat)
    ensures n <= |trace|
  {
    if trace == [] then 0
    else
      var past, ev := trace[..|trace| - 1], trace[|trace| - 1];
      if ev.key == key && (ev.Put? || Answer(Run(capacity, ttl, past), ttl, key, ev.now).Some?) then |trace|
      else LastUse(capacity, ttl, past, key)
  }

  ghost predicate ByLastUse(capacity: nat, ttl: real, trace: seq<Event>, o: seq<Uri>) {
    forall i, j :: 0 <= i < j < |o| ==>
      LastUse(capacity, ttl, trace, o[i]) < LastUse(capacity, ttl, trace, o[j])
  }

  /** Striking keys keeps an order by last use. */
  lemma {:induction false} KeepByLastUse(capacity: nat, ttl: real, trace: seq<Event>, o: seq<Uri>, ks: set<Uri>)
    requires ByLastUse(capacity, ttl, trace, o)
    ensures ByLastUse(capacity, ttl, trace, Keep(o, ks))
  {
    if o != [] {
      var front := o[..|o| - 1];
      KeepByLastUse(capacity, ttl, trace, front, ks);
      var r := Keep(front, ks);
      forall x | x in r
        ensures LastUse(capacity, ttl, trace, x) < LastUse(capacity, ttl, trace, o[|o| - 1])
      {
        assert x in Elems(r);
        var i :| 0 <= i < |front| && front[i] == x;
      }
    }
  }

  /** The key order is the order of last use: the front key is the least recently used. */
  lemma {:induction false} OrderIsByLastUse(capacity: nat, ttl: real, trace: seq<Event>)
    requires capacity >= 1
    ensures ByLastUse(capacity, ttl, trace, Run(capacity, ttl, trace).order)
  {
    if trace != [] {
      var past, ev := trace[..|trace| - 1], trace[|trace| - 1];
      OrderIsByLastUse(capacity, ttl, past);
      RunConsistent(capacity, ttl, past);
      var st := Run(capacity, ttl, past);
      var w := Without(st.order, ev.key);
      KeepByLastUse(capacity, ttl, past, st.order, Elems(st.order) - {ev.key});
      StepShape(st, capacity, ttl, ev);
      forall x | x in w ensures LastUse(capacity, ttl, trace, x) == LastUse(capacity, ttl, past, x) {
        assert x in Elems(w);
      }
      assert ByLastUse(capacity, ttl, trace, w);
      if LastUse(capacity, ttl, trace, ev.key) == |trace| {
        UsedNow(capacity, ttl, trace, w, ev.key);
      }
    }
  }

  /** A key used by the last call comes last. */
  lemma UsedNow(capacity: nat, ttl: real, trace: seq<Event>, w: seq<Uri>, key: Uri)
    requires ByLastUse(capacity, ttl, trace, w) && LastUse(capacity, ttl, trace, key) == |trace|
    requires forall x :: x in w ==> LastUse(capacity, ttl, trace, x) < |trace|
    ensures ByLastUse(capacity, ttl, trace, w + [key])
    ensures ByLastUse(capacity, ttl, trace, (w + [key])[1..])
  {
  }

  lemma EvictsFirst(st: State, capacity: nat, ttl: real, ev: Event, x: Uri)
    requires Consistent(st) && |st.order| <= capacity && capacity >= 1 && ev.Put?
    requires x in st.entries && x !in Step(st, capacity, ttl, ev).entries
    ensures |st.entries| == capacity && ev.key !in st.entries && st.order != [] && x == st.order[0]
    ensures forall y :: y in st.entries && y != x ==> y in Step(st, capacity, ttl, ev).entries
  {
    NoDupCard(st.order);
    var e := Entry(ev.value, ev.mimeType, ev.now);
    if ev.key !in st.entries {
      WithoutShape(st.order, ev.key);
      WithoutLength(st.order, ev.key);
      TrimOne(State(st.order + [ev.key], st.entries[ev.key := e]), capacity);
    }
  }

  /** A put drops a key only when the cache is full and the key put is new, and
      the key dropped is the one whose last use is oldest. */
  lemma EvictsLeastRecentlyUsed(capacity: nat, ttl: real, trace: seq<Event>, ev: Event, x: Uri)
    requires capacity >= 1 && ev.Put?
    requires var st := Run(capacity, ttl, trace);
             x in st.entries && x !in Step(st, capacity, ttl, ev).entries
    ensures var st := Run(capacity, ttl, trace);
            && |st.entries| == capacity && ev.key !in st.entries
            && (forall y :: y in st.entries && y != x ==>
                  && y in Step(st, capacity, ttl, ev).entries
                  && LastUse(capacity, ttl, trace, x) < LastUse(capacity, ttl, trace, y))
  {
    var st := Run(capacity, ttl, trace);
    RunConsistent(capacity, ttl, trace);
    OrderIsByLastUse(capacity, ttl, trace);
    EvictsFirst(st, capacity, ttl, ev, x);
    forall y | y in st.entries && y != x
      ensures LastUse(capacity, ttl, trace, x) < LastUse(capacity, ttl, trace, y)
    {
      assert y in Elems(st.order);
      var i :| 0 <= i < |st.order| && st.order[i] == y;
    }
  }

  // ----- When a get is sure to hit -----

  /** The keys put or hit since `key` was last put or hit, `key` itself left out. */
  ghost function UsedSince(capacity: nat, ttl: real, trace: seq<Event>, key: Uri): set<Uri> {
    set ev | ev in trace && ev.key != key &&
             LastUse(capacity, ttl, trace, ev.key) > LastUse(capacity, ttl, trace, key) :: ev.key
  }

  ghost predicate ClockOrdered(trace: seq<Event>, now: real) {
    && (forall i, j :: 0 <= i < j < |trace| ==> trace[i].now <= trace[j].now)
    && (forall i :: 0 <= i < |trace| ==> trace[i].now <= now)
  }

  /** A key is evicted only after `capacity` other keys were used. */
  lemma EvictionNeedsUse(capacity: nat, ttl: real, past: seq<Event>, ev: Event, key: Uri)
    requires capacity >= 1 && ev.Put?
    requires var st := Run(capacity, ttl, past);
             key in st.entries && key !in Step(st, capacity, ttl, ev).entries
    ensures |UsedSince(capacity, ttl, past + [ev], key)| >= capacity
  {
    var st := Run(capacity, ttl, past);
    var trace := past + [ev];
    assert trace[..|trace| - 1] == past && ev in trace;
    EvictsLeastRecentlyUsed(capacity, ttl, past, ev, key);
    assert ev.key != key;
    var others := st.entries.Keys - {key} + {ev.key};
    forall y | y in others ensures y in UsedSince(capacity, ttl, trace, key) {
      if y != ev.key {
        LastUseIsAnEvent(capacity, ttl, past, y);
        var e :| e in past && e.key == y;
        assert e in trace;
      }
    }
    SubsetCard(others, UsedSince(capacity, ttl, trace, key));
  }

  /** A fresh entry outlasts one more call while fewer than `capacity` other keys were used. */
  lemma HeldStays(capacity: nat, ttl: real, past: seq<Event>, ev: Event, key: Uri, now: real)
    requires capacity >= 1 && ev.now <= now && key in Run(capacity, ttl, past).entries
    requires !Expired(Run(capacity, ttl, past).entries[key], ttl, now)
    requires |UsedSince(capacity, ttl, past + [ev], key)| < capacity
    ensures key in Step(Run(capacity, ttl, past), capacity, ttl, ev).entries
  {
    if ev.Put? && key !in Step(Run(capacity, ttl, past), capacity, ttl, ev).entries {
      EvictionNeedsUse(capacity, ttl, past, ev, key);
      assert false;
    }
  }

  /** An entry within its ttl is still cached while fewer than `capacity` other keys
      have been used since the entry's own last use. */
  lemma {:induction false} FreshEntryRetained(capacity: nat, ttl: real, trace: seq<Event>, key: Uri, now: real)
    requires capacity >= 1 && ClockOrdered(trace, now)
    requires LatestPut(trace, key).Some? && !Expired(LatestPut(trace, key).value, ttl, now)
    requires |UsedSince(capacity, ttl, trace, key)| < capacity
    ensures key in Run(capacity, ttl, trace).entries
  {
    var past, ev := trace[..|trace| - 1], trace[|trace| - 1];
    RunConsistent(capacity, ttl, past);
    assert past + [ev] == trace && ClockOrdered(past, now);
    if ev.Put? && ev.key == key {
      StepShape(Run(capacity, ttl, past), capacity, ttl, ev);
    } else {
      if key !in Run(capacity, ttl, past).entries {
        UsedSinceGrows(capacity, ttl, past, ev, key);
        FreshEntryRetained(capacity, ttl, past, key, now);
        assert false;
      }
      EntriesAreLatestPuts(capacity, ttl, past);
      HeldStays(capacity, ttl, past, ev, key, now);
    }
  }

  lemma {:induction false} LastUseIsAnEvent(capacity: nat, ttl: real, trace: seq<Event>, key: Uri)
    requires LastUse(capacity, ttl, trace, key) > 0
    ensures exists ev :: ev in trace && ev.key == key
  {
    var past, ev := trace[..|trace| - 1], trace[|trace| - 1];
    assert ev in trace;
    if LastUse(capacity, ttl, past, key) > 0 {
      LastUseIsAnEvent(capacity, ttl, past, key);
      var e :| e in past && e.key == key;
      assert e in trace;
    }
  }

  lemma UsedSinceGrows(capacity: nat, ttl: real, past: seq<Event>, ev: Event, key: Uri)
    requires key !in Run(capacity, ttl, past).entries && !(ev.Put? && ev.key == key)
    ensures |UsedSince(capacity, ttl, past, key)| <= |UsedSince(capacity, ttl, past + [ev], key)|
  {
    var trace := past + [ev];
    assert trace[..|trace| - 1] == past;
    forall y | y in UsedSince(capacity, ttl, past, key)
      ensures y in UsedSince(capacity, ttl, trace, key)
    {
      var e :| e in past && e.key == y;
      assert e in trace;
    }
    SubsetCard(UsedSince(capacity, ttl, past, key), UsedSince(capacity, ttl, trace, key));
  }

  /** Call `i` is the last put of the key. */
  ghost predicate IsLatestPut(trace: seq<Event>, key: Uri, i: int) {
    && 0 <= i < |trace| && trace[i].Put? && trace[i].key == key
    && forall j :: i < j < |trace| ==> !(trace[j].Put? && trace[j].key == key)
  }

  lemma {:induction false} LatestPutAt(trace: seq<Event>, key: Uri)
    ensures forall i :: IsLatestPut(trace, key, i) ==>
              LatestPut(trace, key) == Some(Entry(trace[i].value, trace[i].mimeType, trace[i].now))
    ensures LatestPut(trace, key).Some? ==> exists i :: IsLatestPut(trace, key, i)
  {
    if trace != [] {
      var past, last := trace[..|trace| - 1], trace[|trace| - 1];
      LatestPutAt(past, key);
      if last.Put? && last.key == key {
        assert IsLatestPut(trace, key, |trace| - 1);
      } else {
        forall i ensures IsLatestPut(trace, key, i) <==> IsLatestPut(past, key, i) {
          assert forall j :: 0 <= j < |past| ==> past[j] == trace[j];
        }
      }
    }
  }

  /** The key's last put answers: its value and type, when it was made at most `ttl` before. */
  ghost predicate AnswersWith(trace: seq<Event>, ttl: real, key: Uri, now: real, i: int,
                              answer: Option<(string, string)>) {
    IsLatestPut(trace, key, i) && now - trace[i].now <= ttl && answer == Some((trace[i].value, trace[i].mimeType))
  }

  /** Main result on answers. A hit is always the latest put of the key, made at most
      `ttl` ago; and while fewer than `capacity` other keys have been used since the key's
      own last use, such a put is always a hit. */
  lemma AnswerIsLatestFreshPut(capacity: nat, ttl: real, trace: seq<Event>, key: Uri, now: real)
    requires capacity >= 1 && ClockOrdered(trace, now)
    ensures var answer := Answer(Run(capacity, ttl, trace), ttl, key, now);
            && (answer.Some? ==> exists i :: AnswersWith(trace, ttl, key, now, i, answer))
            && (|UsedSince(capacity, ttl, trace, key)| < capacity ==>
                  forall i :: IsLatestPut(trace, key, i) && now - trace[i].now <= ttl ==>
                    AnswersWith(trace, ttl, key, now, i, answer))
            && (answer.Some? ==> answer == LatestFreshPut(trace, ttl, key, now))
            && (|UsedSince(capacity, ttl, trace, key)| < capacity ==> answer == LatestFreshPut(trace, ttl, key, now))
  {
    EntriesAreLatestPuts(capacity, ttl, trace);
    LatestPutAt(trace, key);
    if LatestPut(trace, key).Some? && !Expired(LatestPut(trace, key).value, ttl, now)
       && |UsedSince(capacity, ttl, trace, key)| < capacity {
      FreshEntryRetained(capacity, ttl, trace, key, now);
    }
    if Answer(Run(capacity, ttl, trace), ttl, key, now).Some? {
      var i :| IsLatestPut(trace, key, i);
      assert AnswersWith(trace, ttl, key, now, i, Answer(Run(capacity, ttl, trace), ttl, key, now));
    }
  }

  // ----- What one call does to the entries -----

  /** A get answers an entry at most `ttl` old, drops an older one, and leaves all others. */
  lemma GetOutcome(st: State, ttl: real, key: Uri, now: real)
    ensures var answer, after := Answer(st, ttl, key, now), AfterGet(st, ttl, key, now);
            && (answer.Some? <==> key in st.entries && now - st.entries[key].fetchedAt <= ttl)
            && (answer.Some? ==> answer.value.0 == st.entries[key].value && answer.value.1 == st.entries[key].mimeType)
            && (key in after.entries <==> answer.Some?)
            && (forall k :: k in after.entries ==> k in st.entries && after.entries[k] == st.entries[k])
            && forall k :: k in st.entries && k != key ==> k in after.entries
  {
  }

  /** A put stores what it is given and leaves all others, unless the cache is full and the
      key is new. */
  lemma PutOutcome(st: State, capacity: nat, key: Uri, value: string, mimeType: string, now: real)
    requires Consistent(st) && |st.order| <= capacity && capacity >= 1
    ensures var after := AfterPut(st, capacity, key, Entry(value, mimeType, now));
            && key in after.entries
            && after.entries[key].value == value && after.entries[key].mimeType == mimeType
            && after.entries[key].fetchedAt == now
            && (forall k :: k in after.entries && k != key ==> k in st.entries && after.entries[k] == st.entries[k])
            && (key in st.entries || |st.entries| < capacity ==> forall k :: k in st.entries ==> k in after.entries)
            && after.order != [] && after.order[|after.order| - 1] == key
  {
    if key !in st.entries {
      PutNew(st, capacity, key, Entry(value, mimeType, now));
    }
  }

  lemma PutNew(st: State, capacity: nat, key: Uri, e: Entry)
    requires Consistent(st) && |st.order| <= capacity && capacity >= 1 && key !in st.entries
    ensures AfterPut(st, capacity, key, e) ==
              if |st.entries| < capacity then State(st.order + [key], st.entries[key := e])
              else State(st.order[1..] + [key], st.entries[key := e] - {st.order[0]})
    ensures st.order != [] ==> st.order[0] != key
    ensures |st.entries| == |st.order|
  {
    NoDupCard(st.order);
    NoDupAppend(st.order, key);
    var full := State(st.order + [key], st.entries[key := e]);
    assert Consistent(full);
    TrimOne(full, capacity);
    if st.order != [] {
      assert st.order[0] in Elems(st.order);
      assert full.order[0] == st.order[0] && full.order[1..] == st.order[1..] + [key];
    }
  }
}
