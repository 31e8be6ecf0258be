/** Short references to listed items, per API key (`src/mcp/refs.py`). */
module RefMinter {
  import opened Common
  import opened Names

  /** A result row. */
  datatype Item = Item(fields: map<Name, Name>)

  /** The hash of an item; collisions are possible. */
  type Hash = Item -> int

  datatype Ref = Ref(text: string)

  datatype Entry = Entry(item: Item, expiresAt: real)

  /** What is kept for one API key. */
  datatype Tenant = Tenant(refs: map<Ref, Entry>, nextId: map<char, nat>, hashToRef: map<int, Ref>)

  datatype Error = AmbiguousKind | UnknownKind | RefNotFound

  const NO_REFS: Tenant := Tenant(map[], map[], map[])
  const MAX_ITEMS_PER_CALL: nat := 1000
  const EXHAUSTED: Ref := Ref("exhausted")
  const AUTO: Name := Name("auto")

  const PREFIX_BY_KIND: map<Name, char> :=
    map[Name("field") := 'f', Name("method") := 'm', Name("view") := 'v', Name("pattern") := 'p', Name("module") := 'x']

  const KIND_DETECTOR: seq<(Name, Name)> :=
    [(Name("field_name"), Name("field")), (Name("method_name"), Name("method")), (Name("xmlid"), Name("view")),
     (Name("pattern_name"), Name("pattern")), (Name("module_name"), Name("module"))]

  // ----- The text of a reference -----

  function Digit(n: nat): char
    requires n < 10
  {
    "0123456789"[n]
  }

  function Decimal(n: nat): (s: string)
    ensures s != []
  {
    if n < 10 then [Digit(n)] else Decimal(n / 10) + [Digit(n % 10)]
  }

  function RefName(prefix: char, n: nat): Ref {
    Ref([prefix] + Decimal(n))
  }

  lemma {:induction false} DecimalInjective(n: nat, m: nat)
    requires Decimal(n) == Decimal(m)
    ensures n == m
  {
    var s, t := Decimal(n), Decimal(m);
    assert s[|s| - 1] == Digit(n % 10) && t[|t| - 1] == Digit(m % 10);
    assert n < 10 <==> |s| == 1;
    assert m < 10 <==> |t| == 1;
    if n >= 10 {
      assert s[..|s| - 1] == Decimal(n / 10) && t[..|t| - 1] == Decimal(m / 10);
      DecimalInjective(n / 10, m / 10);
    }
  }

  /** Distinct counters or prefixes give distinct references. */
  lemma RefNameInjective(p: char, n: nat, q: char, m: nat)
    requires RefName(p, n) == RefName(q, m)
    ensures p == q && n == m
  {
    assert RefName(p, n).text[0] == p && RefName(q, m).text[0] == q;
    assert RefName(p, n).text[1..] == Decimal(n) && RefName(q, m).text[1..] == Decimal(m);
    DecimalInjective(n, m);
  }

  // ----- Minting and resolving as functions -----

  function InferKind(item: Item, detector: seq<(Name, Name)>): Option<Name> {
    if detector == [] then None
    else if detector[0].0 in item.fields then Some(detector[0].1)
    else InferKind(item, detector[1..])
  }

  function PrefixFor(item: Item, kind: Name): Result<char, Error> {
    var effective := if kind == AUTO then InferKind(item, KIND_DETECTOR) else Some(kind);
    if effective.None? then Err(AmbiguousKind)
    else if effective.value in PREFIX_BY_KIND then Ok(PREFIX_BY_KIND[effective.value])
    else Err(UnknownKind)
  }

  function Evict(t: Tenant, now: real): Tenant {
    var live := map r | r in t.refs && t.refs[r].expiresAt > now :: t.refs[r];
    t.(refs := live, hashToRef := map h | h in t.hashToRef && t.hashToRef[h] in live :: t.hashToRef[h])
  }

  function NextId(next: map<char, nat>, prefix: char): nat {
    if prefix in next then next[prefix] else 1
  }

  function MintFresh(t: Tenant, item: Item, h: int, prefix: char, expiresAt: real): Tenant {
    var n := NextId(t.nextId, prefix);
    var r := RefName(prefix, n);
    Tenant(t.refs[r := Entry(item, expiresAt)], t.nextId[prefix := n + 1], t.hashToRef[h := r])
  }

  function MintOne(t: Tenant, item: Item, kind: Name, now: real, ttl: real, hash: Hash): (Tenant, Result<Ref, Error>) {
    var prefix := PrefixFor(item, kind);
    if prefix.Err? then (t, Err(prefix.error))
    else
      var h := hash(item);
      var known := h in t.hashToRef && t.hashToRef[h] in t.refs;
      if known && t.refs[t.hashToRef[h]].expiresAt > now then
        var r := t.hashToRef[h];
        (t.(refs := t.refs[r := t.refs[r].(expiresAt := now + ttl)]), Ok(r))
      else
        var cleared := if known then t.(hashToRef := t.hashToRef - {h}) else t;
        (MintFresh(cleared, item, h, prefix.value, now + ttl),
         Ok(RefName(prefix.value, NextId(t.nextId, prefix.value))))
  }

  /** Items in order; the first error ends the call and keeps what was minted before it. */
  function MintAll(t: Tenant, items: seq<Item>, kind: Name, now: real, ttl: real, hash: Hash)
    : (r: (Tenant, Result<seq<Ref>, Error>))
    ensures r.1.Ok? ==> |r.1.value| == |items|
  {
    if items == [] then (t, Ok([]))
    else
      var (t', before) := MintAll(t, items[..|items| - 1], kind, now, ttl, hash);
      if before.Err? then (t', before)
      else if |items| > MAX_ITEMS_PER_CALL then (t', Ok(before.value + [EXHAUSTED]))
      else
        var (t'', one) := MintOne(t', items[|items| - 1], kind, now, ttl, hash);
        (t'', if one.Err? then Err(one.error) else Ok(before.value + [one.value]))
  }

  type Stores = map<Name, Tenant>

  function TenantOf(stores: Stores, key: Name): Tenant {
    if key in stores then stores[key] else NO_REFS
  }

  datatype Call =
    | Mint(key: Name, items: seq<Item>, kind: Name, now: real)
    | Resolve(key: Name, ref: Ref, now: real)

  /** What a call makes of the tenant it is made for. */
  function TenantAfter(t: Tenant, c: Call, ttl: real, hash: Hash): Tenant {
    if c.Mint? then MintAll(Evict(t, c.now), c.items, c.kind, c.now, ttl, hash).0 else Evict(t, c.now)
  }

  function After(stores: Stores, c: Call, ttl: real, hash: Hash): Stores {
    match c
    case Mint(key, items, kind, now) =>
      stores[key := MintAll(Evict(TenantOf(stores, key), now), items, kind, now, ttl, hash).0]
    case Resolve(key, ref, now) =>
      if key in stores then stores[key := Evict(stores[key], now)] else stores
  }

  function Resolved(stores: Stores, key: Name, ref: Ref, now: real): Result<Item, Error> {
    var t := Evict(TenantOf(stores, key), now);
    if ref in t.refs then Ok(t.refs[ref].item) else Err(RefNotFound)
  }

  class Minter {
    const ttl: real
    const hash: Hash
    var stores: Stores

    constructor (ttl: real, hash: Hash)
      ensures this.ttl == ttl && this.hash == hash && stores == map[]
    {
      this.ttl, this.hash, this.stores := ttl, hash, map[];
    }

    method Mint(items: seq<Item>, key: Name, kind: Name, now: real) returns (r: Result<seq<Ref>, Error>)
      modifies this
      ensures stores == After(old(stores), Call.Mint(key, items, kind, now), ttl, hash)
      ensures r == MintAll(Evict(TenantOf(old(stores), key), now), items, kind, now, ttl, hash).1
    {
      var t := Evict(TenantOf(stores, key), now);
      t, r := MintItems(t, items, kind, now);
      stores := stores[key := t];
    }

    /** The loop over the items. */
    method MintItems(start: Tenant, items: seq<Item>, kind: Name, now: real)
      returns (t: Tenant, r: Result<seq<Ref>, Error>)
      ensures t == MintAll(start, items, kind, now, ttl, hash).0
      ensures r == MintAll(start, items, kind, now, ttl, hash).1
    {
      t := start;
      var refs: seq<Ref> := [];
      for i := 0 to |items|
        invariant (t, Ok(refs)) == MintAll(start, items[..i], kind, now, ttl, hash)
        invariant |refs| == i
      {
        MintAllStep(start, items, i, kind, now, ttl, hash);
        if i >= MAX_ITEMS_PER_CALL {
          refs := refs + [EXHAUSTED];
          continue;
        }
        var one := MintOne(t, items[i], kind, now, ttl, hash);
        t := one.0;
        if one.1.Err? {
          StopsAtError(start, items, i + 1, kind, now, ttl, hash);
          return t, Err(one.1.error);
        }
        refs := refs + [one.1.value];
      }
      assert items[..|items|] == items;
      return t, Ok(refs);
    }

    method Resolve(ref: Ref, key: Name, now: real) returns (r: Result<Item, Error>)
      modifies this
      ensures stores == After(old(stores), Call.Resolve(key, ref, now), ttl, hash)
      ensures r == Resolved(old(stores), key, ref, now)
      ensures r.Ok? <==>
                key in old(stores) && ref in old(stores)[key].refs && old(stores)[key].refs[ref].expiresAt > now
      ensures r.Ok? ==> r.value == old(stores)[key].refs[ref].item
    {
      ResolvesIff(stores, key, ref, now, ttl, hash);
      if key !in stores {
        return Err(RefNotFound);
      }
      var t := Evict(stores[key], now);
      stores := stores[key := t];
      return if ref in t.refs then Ok(t.refs[ref].item) else Err(RefNotFound);
    }
  }

  lemma MintAllStep(t: Tenant, items: seq<Item>, i: nat, kind: Name, now: real, ttl: real, hash: Hash)
    requires i < |items| && MintAll(t, items[..i], kind, now, ttl, hash).1.Ok?
    ensures var (t', before) := MintAll(t, items[..i], kind, now, ttl, hash);
            MintAll(t, items[..i + 1], kind, now, ttl, hash) ==
              if i >= MAX_ITEMS_PER_CALL then (t', Ok(before.value + [EXHAUSTED]))
              else
                var (t'', one) := MintOne(t', items[i], kind, now, ttl, hash);
                (t'', if one.Err? then Err(one.error) else Ok(before.value + [one.value]))
  {
    assert items[..i + 1][..i] == items[..i];
  }

  lemma {:induction false} StopsAtError(t: Tenant, items: seq<Item>, i: nat, kind: Name, now: real, ttl: real,
                                        hash: Hash)
    requires i <= |items| && MintAll(t, items[..i], kind, now, ttl, hash).1.Err?
    ensures MintAll(t, items, kind, now, ttl, hash) == MintAll(t, items[..i], kind, now, ttl, hash)
    decreases |items|
  {
    if i == |items| {
      assert items[..i] == items;
    } else {
      var front := items[..|items| - 1];
      assert front[..i] == items[..i];
      StopsAtError(t, front, i, kind, now, ttl, hash);
    }
  }

  // ----- Live references and hash entries -----

  /** References and hash entries are in bijection. */
  ghost predicate Paired(t: Tenant, hash: Hash) {
    && (forall h :: h in t.hashToRef ==> t.hashToRef[h] in t.refs && hash(t.refs[t.hashToRef[h]].item) == h)
    && (forall r :: r in t.refs ==> hash(t.refs[r].item) in t.hashToRef && t.hashToRef[hash(t.refs[r].item)] == r)
  }

  /** A tenant with these counters gave out `r` at some time. */
  ghost predicate Issued(next: map<char, nat>, r: Ref) {
    exists p, n: nat :: r == RefName(p, n) && n < NextId(next, p)
  }

  ghost predicate Sound(t: Tenant, hash: Hash) {
    Paired(t, hash) && forall r :: r in t.refs ==> Issued(t.nextId, r)
  }

  ghost predicate AllLive(t: Tenant, now: real) {
    forall r :: r in t.refs ==> t.refs[r].expiresAt > now
  }

  /** From `t` to `u` no reference already given out came to name another item. */
  ghost predicate KeepsBindings(t: Tenant, u: Tenant) {
    && (forall r :: Issued(t.nextId, r) ==> Issued(u.nextId, r))
    && (forall r :: Issued(t.nextId, r) && r in u.refs ==> r in t.refs && u.refs[r].item == t.refs[r].item)
  }

  /** References of `t` that expire at `until` or later are still there in `u`. */
  ghost predicate KeepsLive(t: Tenant, u: Tenant, until: real) {
    forall r :: r in t.refs && t.refs[r].expiresAt >= until ==>
      r in u.refs && u.refs[r].item == t.refs[r].item && u.refs[r].expiresAt >= until
  }

  /** The next counter gives a reference never given out before. */
  lemma FreshName(next: map<char, nat>, prefix: char)
    ensures var r, after := RefName(prefix, NextId(next, prefix)), next[prefix := NextId(next, prefix) + 1];
            && !Issued(next, r) && Issued(after, r)
            && forall x :: Issued(next, x) ==> Issued(after, x)
  {
    var n := NextId(next, prefix);
    var r, after := RefName(prefix, n), next[prefix := n + 1];
    if p, m: nat :| r == RefName(p, m) && m < NextId(next, p) {
      RefNameInjective(prefix, n, p, m);
      assert false;
    }
    assert n < NextId(after, prefix);
    forall x | Issued(next, x) ensures Issued(after, x) {
      var p, m: nat :| x == RefName(p, m) && m < NextId(next, p);
      assert m < NextId(after, p);
    }
  }

  lemma FreshSound(t: Tenant, item: Item, prefix: char, expiresAt: real, hash: Hash)
    requires Sound(t, hash) && hash(item) !in t.hashToRef
    ensures Sound(MintFresh(t, item, hash(item), prefix, expiresAt), hash)
  {
    FreshName(t.nextId, prefix);
  }

  lemma FreshKeeps(t: Tenant, item: Item, prefix: char, expiresAt: real, until: real, hash: Hash)
    requires Sound(t, hash)
    ensures KeepsBindings(t, MintFresh(t, item, hash(item), prefix, expiresAt))
    ensures KeepsLive(t, MintFresh(t, item, hash(item), prefix, expiresAt), until)
  {
    FreshName(t.nextId, prefix);
  }

  /** Minting an item whose hash is known renews the reference it has. */
  lemma MintKnown(t: Tenant, item: Item, kind: Name, now: real, ttl: real, hash: Hash)
    requires Paired(t, hash) && AllLive(t, now) && hash(item) in t.hashToRef && PrefixFor(item, kind).Ok?
    ensures var r := t.hashToRef[hash(item)];
            && r in t.refs && hash(t.refs[r].item) == hash(item)
            && MintOne(t, item, kind, now, ttl, hash) ==
                 (t.(refs := t.refs[r := t.refs[r].(expiresAt := now + ttl)]), Ok(r))
  {
  }

  /** What every mint keeps. */
  ghost predicate Kept(t: Tenant, u: Tenant, now: real, until: real, hash: Hash) {
    Sound(u, hash) && AllLive(u, now) && KeepsBindings(t, u) && KeepsLive(t, u, until)
  }

  lemma FreshKept(t: Tenant, item: Item, prefix: char, expiresAt: real, now: real, until: real, hash: Hash)
    requires Sound(t, hash) && AllLive(t, now) && hash(item) !in t.hashToRef && expiresAt > now
    ensures Kept(t, MintFresh(t, item, hash(item), prefix, expiresAt), now, until, hash)
  {
    FreshSound(t, item, prefix, expiresAt, hash);
    FreshKeeps(t, item, prefix, expiresAt, until, hash);
  }

  lemma MintUnknownSound(t: Tenant, item: Item, kind: Name, now: real, ttl: real, until: real, hash: Hash)
    requires ttl > 0.0 && Sound(t, hash) && AllLive(t, now)
    requires PrefixFor(item, kind).Ok? && hash(item) !in t.hashToRef
    ensures Kept(t, MintOne(t, item, kind, now, ttl, hash).0, now, until, hash)
  {
    var u := MintFresh(t, item, hash(item), PrefixFor(item, kind).value, now + ttl);
    assert Kept(t, u, now, until, hash) by {
      FreshKept(t, item, PrefixFor(item, kind).value, now + ttl, now, until, hash);
    }
    assert MintOne(t, item, kind, now, ttl, hash).0 == u by {
    }
  }

  lemma MintOneSound(t: Tenant, item: Item, kind: Name, now: real, ttl: real, until: real, hash: Hash)
    requires ttl > 0.0 && Sound(t, hash) && AllLive(t, now) && until <= now + ttl
    ensures Kept(t, MintOne(t, item, kind, now, ttl, hash).0, now, until, hash)
  {
    if PrefixFor(item, kind).Ok? && hash(item) in t.hashToRef {
    } else if PrefixFor(item, kind).Ok? {
      MintUnknownSound(t, item, kind, now, ttl, until, hash);
    }
  }

  /** `r` names an item with the hash of `item` and lives until `until` at least. */
  ghost predicate Denotes(t: Tenant, r: Ref, item: Item, until: real, hash: Hash) {
    r in t.refs && hash(t.refs[r].item) == hash(item) && t.refs[r].expiresAt >= until
  }

  lemma {:induction false} MintAllSound(t: Tenant, items: seq<Item>, kind: Name, now: real, ttl: real, until: real,
                                        hash: Hash)
    requires ttl > 0.0 && Sound(t, hash) && AllLive(t, now) && until <= now + ttl
    ensures Kept(t, MintAll(t, items, kind, now, ttl, hash).0, now, until, hash)
  {
    if items != [] {
      var front := items[..|items| - 1];
      MintAllSound(t, front, kind, now, ttl, until, hash);
      MintOneSound(MintAll(t, front, kind, now, ttl, hash).0, items[|items| - 1], kind, now, ttl, until, hash);
    }
  }

  /** Every answer of a call names, right after it and for `ttl`, an item of that hash. */
  lemma {:induction false} MintAllAnswers(t: Tenant, items: seq<Item>, kind: Name, now: real, ttl: real, hash: Hash,
                                          i: nat)
    requires ttl > 0.0 && Sound(t, hash) && AllLive(t, now)
    requires MintAll(t, items, kind, now, ttl, hash).1.Ok? && i < |items| && i < MAX_ITEMS_PER_CALL
    ensures var (u, r) := MintAll(t, items, kind, now, ttl, hash);
            Denotes(u, r.value[i], items[i], now + ttl, hash)
  {
    var front, last := items[..|items| - 1], items[|items| - 1];
    var t' := MintAll(t, front, kind, now, ttl, hash).0;
    MintAllSound(t, front, kind, now, ttl, now + ttl, hash);
    if i < |front| {
      MintAllAnswers(t, front, kind, now, ttl, hash, i);
      MintOneSound(t', last, kind, now, ttl, now + ttl, hash);
    } else {
    }
  }

  // ----- Whole runs -----

  function Run(stores: Stores, calls: seq<Call>, ttl: real, hash: Hash): Stores {
    if calls == [] then stores
    else After(Run(stores, calls[..|calls| - 1], ttl, hash), calls[|calls| - 1], ttl, hash)
  }

  ghost predicate AllSound(stores: Stores, hash: Hash) {
    forall key :: key in stores ==> Sound(stores[key], hash)
  }

  /** The clock readings of a run lie between `from` and, strictly, `until`. */
  ghost predicate Within(calls: seq<Call>, from: real, until: real) {
    forall i :: 0 <= i < |calls| ==> from <= calls[i].now < until
  }

  /** A call touches only the tenant it is made for. */
  lemma OtherTenantsUntouched(stores: Stores, c: Call, ttl: real, hash: Hash, key: Name)
    requires key != c.key
    ensures key in After(stores, c, ttl, hash) <==> key in stores
    ensures key in stores ==> After(stores, c, ttl, hash)[key] == stores[key]
  {
  }

  lemma CallKeeps(stores: Stores, c: Call, ttl: real, until: real, hash: Hash, key: Name)
    requires ttl > 0.0 && AllSound(stores, hash)
    ensures AllSound(After(stores, c, ttl, hash), hash)
    ensures KeepsBindings(TenantOf(stores, key), TenantOf(After(stores, c, ttl, hash), key))
    ensures c.now < until <= c.now + ttl ==>
              KeepsLive(TenantOf(stores, key), TenantOf(After(stores, c, ttl, hash), key), until)
  {
    var t := TenantOf(stores, c.key);
    if c.key in stores || c.Mint? {
      assert After(stores, c, ttl, hash) == stores[c.key := TenantAfter(t, c, ttl, hash)];
      TenantKeeps(t, c, ttl, until, hash);
    }
  }

  lemma TenantKeeps(t: Tenant, c: Call, ttl: real, until: real, hash: Hash)
    requires ttl > 0.0 && Sound(t, hash)
    ensures Sound(TenantAfter(t, c, ttl, hash), hash) && KeepsBindings(t, TenantAfter(t, c, ttl, hash))
    ensures c.now < until <= c.now + ttl ==> KeepsLive(t, TenantAfter(t, c, ttl, hash), until)
  {
    if c.Mint? {
      var bound := if until <= c.now + ttl then until else c.now;
      MintAllSound(Evict(t, c.now), c.items, c.kind, c.now, ttl, bound, hash);
    }
  }

  /** Main result on bindings. Over any run a reference given out to a tenant never comes
      to name another item, and the references and hash entries stay in bijection. */
  lemma {:induction false} NeverRebound(stores: Stores, calls: seq<Call>, ttl: real, hash: Hash, key: Name)
    requires ttl > 0.0 && AllSound(stores, hash)
    ensures AllSound(Run(stores, calls, ttl, hash), hash)
    ensures KeepsBindings(TenantOf(stores, key), TenantOf(Run(stores, calls, ttl, hash), key))
  {
    if calls != [] {
      var front := calls[..|calls| - 1];
      NeverRebound(stores, front, ttl, hash, key);
      CallKeeps(Run(stores, front, ttl, hash), calls[|calls| - 1], ttl, 0.0, hash, key);
    }
  }

  lemma {:induction false} LiveThroughRun(stores: Stores, calls: seq<Call>, ttl: real, from: real, hash: Hash,
                                          key: Name)
    requires ttl > 0.0 && AllSound(stores, hash) && Within(calls, from, from + ttl)
    ensures KeepsLive(TenantOf(stores, key), TenantOf(Run(stores, calls, ttl, hash), key), from + ttl)
  {
    if calls != [] {
      var front, last := calls[..|calls| - 1], calls[|calls| - 1];
      LiveThroughRun(stores, front, ttl, from, hash, key);
      NeverRebound(stores, front, ttl, hash, key);
      CallKeeps(Run(stores, front, ttl, hash), last, ttl, from + ttl, hash, key);
    }
  }

  /** Main result on lifetimes. A reference minted at `now` resolves, after any calls with
      clock readings below `now + ttl`, to an item of the hash of the one minted; and minting
      that item again gives the same reference. */
  lemma MintedResolves(stores: Stores, key: Name, items: seq<Item>, kind: Name, now: real, ttl: real, hash: Hash,
                       later: seq<Call>, i: nat, at: real)
    requires ttl > 0.0 && AllSound(stores, hash)
    requires MintAll(Evict(TenantOf(stores, key), now), items, kind, now, ttl, hash).1.Ok?
    requires i < |items| && i < MAX_ITEMS_PER_CALL
    requires Within(later, now, now + ttl) && now <= at < now + ttl
    ensures var r := MintAll(Evict(TenantOf(stores, key), now), items, kind, now, ttl, hash).1.value[i];
            var end := Run(After(stores, Call.Mint(key, items, kind, now), ttl, hash), later, ttl, hash);
            && Resolved(end, key, r, at).Ok? && hash(Resolved(end, key, r, at).value) == hash(items[i])
            && forall again: Item, k: Name :: hash(again) == hash(items[i]) && PrefixFor(again, k).Ok? ==>
                 MintOne(Evict(TenantOf(end, key), at), again, k, at, ttl, hash).1 == Ok(r)
  {
    var t := TenantOf(stores, key);
    var minted := After(stores, Call.Mint(key, items, kind, now), ttl, hash);
    MintAllAnswers(Evict(t, now), items, kind, now, ttl, hash, i);
    CallKeeps(stores, Call.Mint(key, items, kind, now), ttl, now, hash, key);
    NeverRebound(minted, later, ttl, hash, key);
    LiveThroughRun(minted, later, ttl, now, hash, key);
    var end := Run(minted, later, ttl, hash);
    assert Sound(TenantOf(end, key), hash);
    forall again: Item, k: Name | hash(again) == hash(items[i]) && PrefixFor(again, k).Ok?
      ensures MintOne(Evict(TenantOf(end, key), at), again, k, at, ttl, hash).1
                == Ok(MintAll(Evict(TenantOf(stores, key), now), items, kind, now, ttl, hash).1.value[i])
    {
      MintKnown(Evict(TenantOf(end, key), at), again, k, at, ttl, hash);
    }
  }

  // ----- When a reference is refused -----

  /** Main result on answers. A reference resolves exactly while its entry is there and has not
      expired, to the item of that entry; a call to resolve leaves exactly the entries that have
      not expired, and every counter, and makes no tenant. */
  lemma ResolvesIff(stores: Stores, key: Name, ref: Ref, now: real, ttl: real, hash: Hash)
    ensures Resolved(stores, key, ref, now).Ok? <==>
              key in stores && ref in stores[key].refs && stores[key].refs[ref].expiresAt > now
    ensures Resolved(stores, key, ref, now).Ok? ==> Resolved(stores, key, ref, now).value == stores[key].refs[ref].item
    ensures Resolved(stores, key, ref, now).Err? ==> Resolved(stores, key, ref, now).error == RefNotFound
    ensures var after := After(stores, Call.Resolve(key, ref, now), ttl, hash);
            && after.Keys == stores.Keys
            && forall r :: key in stores ==>
                 && (r in after[key].refs <==> r in stores[key].refs && stores[key].refs[r].expiresAt > now)
                 && (r in after[key].refs ==> after[key].refs[r] == stores[key].refs[r])
                 && after[key].nextId == stores[key].nextId
  {
  }

  /** No entry of the tenant lives on at `until` under that reference. */
  ghost predicate DeadBy(t: Tenant, r: Ref, until: real) {
    Issued(t.nextId, r) && (r in t.refs ==> t.refs[r].expiresAt <= until)
  }

  lemma MintOneDead(t: Tenant, item: Item, kind: Name, now: real, ttl: real, hash: Hash, r: Ref, until: real)
    requires Sound(t, hash) && AllLive(t, now) && DeadBy(t, r, until)
    requires r in t.refs ==> hash(item) != hash(t.refs[r].item)
    ensures var u := MintOne(t, item, kind, now, ttl, hash).0;
            DeadBy(u, r, until) && (r in u.refs ==> r in t.refs && u.refs[r] == t.refs[r])
  {
    if PrefixFor(item, kind).Ok? {
      FreshName(t.nextId, PrefixFor(item, kind).value);
      if hash(item) in t.hashToRef {
        MintKnown(t, item, kind, now, ttl, hash);
      }
    }
  }

  lemma {:induction false} MintAllDead(t: Tenant, items: seq<Item>, kind: Name, now: real, ttl: real, hash: Hash,
                                       r: Ref, until: real)
    requires ttl > 0.0 && Sound(t, hash) && AllLive(t, now) && DeadBy(t, r, until)
    requires r in t.refs ==> forall i :: 0 <= i < |items| ==> hash(items[i]) != hash(t.refs[r].item)
    ensures var u := MintAll(t, items, kind, now, ttl, hash).0;
            DeadBy(u, r, until) && (r in u.refs ==> r in t.refs && u.refs[r] == t.refs[r])
  {
    if items != [] {
      var front := items[..|items| - 1];
      MintAllDead(t, front, kind, now, ttl, hash, r, until);
      MintAllSound(t, front, kind, now, ttl, now, hash);
      MintOneDead(MintAll(t, front, kind, now, ttl, hash).0, items[|items| - 1], kind, now, ttl, hash, r, until);
    }
  }

  /** No call of the run mints an item of this hash for the tenant. */
  ghost predicate NotMinted(calls: seq<Call>, key: Name, h: int, hash: Hash) {
    forall j, i :: 0 <= j < |calls| && calls[j].key == key && calls[j].Mint? && 0 <= i < |calls[j].items| ==>
      hash(calls[j].items[i]) != h
  }

  lemma CallDead(stores: Stores, c: Call, ttl: real, hash: Hash, key: Name, r: Ref, h: int, until: real)
    requires ttl > 0.0 && AllSound(stores, hash) && DeadBy(TenantOf(stores, key), r, until)
    requires r in TenantOf(stores, key).refs ==> hash(TenantOf(stores, key).refs[r].item) == h
    requires NotMinted([c], key, h, hash)
    ensures var t := TenantOf(After(stores, c, ttl, hash), key);
            DeadBy(t, r, until) && (r in t.refs ==> hash(t.refs[r].item) == h)
  {
    if c.key == key {
      var t := TenantOf(stores, key);
      if c.Mint? {
        assert [c][0] == c;
        MintAllDead(Evict(t, c.now), c.items, c.kind, c.now, ttl, hash, r, until);
      }
    }
  }

  lemma {:induction false} RunDead(stores: Stores, calls: seq<Call>, ttl: real, hash: Hash, key: Name, r: Ref, h: int,
                                   until: real)
    requires ttl > 0.0 && AllSound(stores, hash) && DeadBy(TenantOf(stores, key), r, until)
    requires r in TenantOf(stores, key).refs ==> hash(TenantOf(stores, key).refs[r].item) == h
    requires NotMinted(calls, key, h, hash)
    ensures var t := TenantOf(Run(stores, calls, ttl, hash), key);
            DeadBy(t, r, until) && (r in t.refs ==> hash(t.refs[r].item) == h)
  {
    if calls != [] {
      var front, last := calls[..|calls| - 1], calls[|calls| - 1];
      assert NotMinted(front, key, h, hash) && NotMinted([last], key, h, hash);
      RunDead(stores, front, ttl, hash, key, r, h, until);
      NeverRebound(stores, front, ttl, hash, key);
      CallDead(Run(stores, front, ttl, hash), last, ttl, hash, key, r, h, until);
    }
  }

  /** Main result on expiry. A reference that a mint at `now` gave for an item is refused from
      `now + ttl` on, after any calls that do not mint an item of that hash again. */
  lemma ExpiredRefused(stores: Stores, key: Name, items: seq<Item>, kind: Name, now: real, ttl: real, hash: Hash,
                       later: seq<Call>, i: nat, at: real)
    requires ttl > 0.0 && AllSound(stores, hash)
    requires MintAll(Evict(TenantOf(stores, key), now), items, kind, now, ttl, hash).1.Ok?
    requires i < |items| && i < MAX_ITEMS_PER_CALL
    requires NotMinted(later, key, hash(items[i]), hash) && at >= now + ttl
    ensures var r := MintAll(Evict(TenantOf(stores, key), now), items, kind, now, ttl, hash).1.value[i];
            var end := Run(After(stores, Call.Mint(key, items, kind, now), ttl, hash), later, ttl, hash);
            Resolved(end, key, r, at) == Err(RefNotFound)
  {
    var t := Evict(TenantOf(stores, key), now);
    var minted := After(stores, Call.Mint(key, items, kind, now), ttl, hash);
    MintAllAnswers(t, items, kind, now, ttl, hash, i);
    MintAllExpiry(t, items, kind, now, ttl, hash, i);
    CallKeeps(stores, Call.Mint(key, items, kind, now), ttl, now, hash, key);
    var r := MintAll(t, items, kind, now, ttl, hash).1.value[i];
    assert Sound(TenantOf(minted, key), hash) && r in TenantOf(minted, key).refs;
    RunDead(minted, later, ttl, hash, key, r, hash(items[i]), now + ttl);
  }

  /** Every answer of a call expires `ttl` after it. */
  lemma {:induction false} MintAllExpiry(t: Tenant, items: seq<Item>, kind: Name, now: real, ttl: real, hash: Hash,
                                         i: nat)
    requires ttl > 0.0 && Sound(t, hash) && AllLive(t, now)
    requires MintAll(t, items, kind, now, ttl, hash).1.Ok? && i < |items| && i < MAX_ITEMS_PER_CALL
    ensures var (u, r) := MintAll(t, items, kind, now, ttl, hash);
            r.value[i] in u.refs && u.refs[r.value[i]].expiresAt == now + ttl
  {
    var front, last := items[..|items| - 1], items[|items| - 1];
    var t' := MintAll(t, front, kind, now, ttl, hash).0;
    MintAllSound(t, front, kind, now, ttl, now + ttl, hash);
    if i < |front| {
      MintAllExpiry(t, front, kind, now, ttl, hash, i);
    }
    if |items| <= MAX_ITEMS_PER_CALL {
    }
  }

  // ----- What a fresh reference is called -----

  /** The number a decimal text stands for. */
  function ValueOf(s: string): nat {
    if s == "" then 0
    else 10 * ValueOf(s[..|s| - 1]) + if '0' <= s[|s| - 1] <= '9' then (s[|s| - 1] - '0') as int else 0
  }

  lemma {:induction false} DecimalValue(n: nat)
    ensures ValueOf(Decimal(n)) == n && forall i :: 0 <= i < |Decimal(n)| ==> '0' <= Decimal(n)[i] <= '9'
    ensures n > 0 ==> Decimal(n)[0] != '0'
  {
    var s := Decimal(n);
    if n < 10 {
      assert s[..0] == "";
    } else {
      DecimalValue(n / 10);
      assert s[..|s| - 1] == Decimal(n / 10);
    }
  }

  /** The first field of this order that an item has decides its kind. */
  lemma InferredKind(item: Item)
    ensures InferKind(item, KIND_DETECTOR) ==
              if Name("field_name") in item.fields then Some(Name("field"))
              else if Name("method_name") in item.fields then Some(Name("method"))
              else if Name("xmlid") in item.fields then Some(Name("view"))
              else if Name("pattern_name") in item.fields then Some(Name("pattern"))
              else if Name("module_name") in item.fields then Some(Name("module"))
              else None
  {
    var d := KIND_DETECTOR;
    assert InferKind(item, d[5..]) == None;
    assert d[4..][1..] == d[5..] && d[3..][1..] == d[4..] && d[2..][1..] == d[3..] && d[1..][1..] == d[2..];
    assert InferKind(item, d[4..]) == if Name("module_name") in item.fields then Some(Name("module")) else None;
    assert InferKind(item, d[3..]) ==
             if Name("pattern_name") in item.fields then Some(Name("pattern")) else InferKind(item, d[4..]);
    assert InferKind(item, d[2..]) ==
             if Name("xmlid") in item.fields then Some(Name("view")) else InferKind(item, d[3..]);
  }

  /** An item whose hash is not known gets a reference never given out before, made of the
      letter of its kind and the next number, counted from 1, and the reference names it. */
  lemma FreshReference(t: Tenant, item: Item, kind: Name, now: real, ttl: real, hash: Hash)
    requires hash(item) !in t.hashToRef && PrefixFor(item, kind).Ok?
    ensures var (u, r) := MintOne(t, item, kind, now, ttl, hash);
            var p, n := PrefixFor(item, kind).value, NextId(t.nextId, PrefixFor(item, kind).value);
            && r.Ok? && !Issued(t.nextId, r.value)
            && r.value.text != "" && r.value.text[0] == p && ValueOf(r.value.text[1..]) == n
            && NextId(u.nextId, p) == n + 1 && (forall q :: q != p ==> NextId(u.nextId, q) == NextId(t.nextId, q))
            && (p !in t.nextId ==> n == 1)
            && u.refs == t.refs[r.value := Entry(item, now + ttl)]
  {
    FreshName(t.nextId, PrefixFor(item, kind).value);
    var n := NextId(t.nextId, PrefixFor(item, kind).value);
    DecimalValue(n);
    assert RefName(PrefixFor(item, kind).value, n).text[1..] == Decimal(n);
  }

  /** The letters, and the kinds that have one. */
  lemma KindLetters(item: Item, kind: Name)
    ensures kind == Name("field") ==> PrefixFor(item, kind) == Ok('f')
    ensures kind == Name("method") ==> PrefixFor(item, kind) == Ok('m')
    ensures kind == Name("view") ==> PrefixFor(item, kind) == Ok('v')
    ensures kind == Name("pattern") ==> PrefixFor(item, kind) == Ok('p')
    ensures kind == Name("module") ==> PrefixFor(item, kind) == Ok('x')
    ensures kind !in {Name("auto"), Name("field"), Name("method"), Name("view"), Name("pattern"), Name("module")} ==>
              PrefixFor(item, kind) == Err(UnknownKind)
    ensures kind == Name("auto") ==>
              PrefixFor(item, kind) == var k := InferKind(item, KIND_DETECTOR);
                                       if k.None? then Err(AmbiguousKind) else PrefixFor(item, k.value)
  {
    assert |"field"| != |"method"| && "field"[0] != "view"[0];
    assert "field"[0] != "pattern"[0] && "field"[0] != "module"[0];
    assert "auto"[0] != "field"[0] && "auto"[0] != "method"[0] && "auto"[0] != "view"[0] && "auto"[0] != "pattern"[0];
    assert "method"[1] != "module"[1] && "method"[0] != "view"[0] && "method"[0] != "pattern"[0];
    assert "view"[0] != "pattern"[0] && "view"[0] != "module"[0] && "pattern"[0] != "module"[0];
    InferredKind(item);
  }

  /** A call succeeds exactly when each of its first 1000 items has a kind; the items behind
      get the text `exhausted` and change nothing. */
  lemma {:induction false} MintAllOutcome(t: Tenant, items: seq<Item>, kind: Name, now: real, ttl: real, hash: Hash)
    ensures var (u, r) := MintAll(t, items, kind, now, ttl, hash);
            && (r.Ok? <==> forall i :: 0 <= i < |items| && i < 1000 ==> PrefixFor(items[i], kind).Ok?)
            && (r.Ok? ==> |r.value| == |items| && forall i :: 1000 <= i < |items| ==> r.value[i] == Ref("exhausted"))
            && (r.Ok? && |items| > 1000 ==> u == MintAll(t, items[..1000], kind, now, ttl, hash).0)
  {
    if items != [] {
      var front := items[..|items| - 1];
      MintAllOutcome(t, front, kind, now, ttl, hash);
      assert forall i :: 0 <= i < |front| ==> front[i] == items[i];
      if |items| > 1001 {
        assert front[..1000] == items[..1000];
      } else if |items| == 1001 {
        assert front == items[..1000];
      }
    }
  }
}
