/** The sliding-window rate limiter (`src/mcp/middleware.py`). */
module RateLimit {

  const WINDOW: real := 60.0

  datatype Attempt = Attempt(now: real, limit: int)

  // ----- What the limiter is for -----

  /** The times of `ts` at most a window before `now`. */
  function Recent(ts: seq<real>, now: real): seq<real> {
    if ts == [] then []
    else if now - ts[|ts| - 1] <= WINDOW then Recent(ts[..|ts| - 1], now) + [ts[|ts| - 1]]
    else Recent(ts[..|ts| - 1], now)
  }

  /** The times of the accepted attempts: one is accepted when fewer than its limit were
      accepted in the window that ends with it. */
  function Accepted(h: seq<Attempt>): seq<real> {
    if h == [] then []
    else
      var before, a := Accepted(h[..|h| - 1]), h[|h| - 1];
      if |Recent(before, a.now)| < a.limit then before + [a.now] else before
  }

  // ----- The limiter -----

  function Prune(bucket: seq<real>, now: real): seq<real> {
    if bucket != [] && now - bucket[0] > WINDOW then Prune(bucket[1..], now) else bucket
  }

  function Checked(bucket: seq<real>, limit: int, now: real): (seq<real>, bool, int) {
    var live := Prune(bucket, now);
    if |live| >= limit then (live, false, 0) else (live + [now], true, limit - |live| - 1)
  }

  class Limiter {
    var buckets: map<int, seq<real>>

    constructor ()
      ensures buckets == map[]
    {
      buckets := map[];
    }

    ghost function Bucket(key: int): seq<real> reads this {
      if key in buckets then buckets[key] else []
    }

    method CheckRateLimit(key: int, limit: int, now: real) returns (allowed: bool, remaining: int)
      modifies this
      ensures (Bucket(key), allowed, remaining) == Checked(old(Bucket(key)), limit, now)
      ensures forall k :: k != key ==> Bucket(k) == old(Bucket(k))
    {
      var bucket := if key in buckets then buckets[key] else [];
      while bucket != [] && now - bucket[0] > WINDOW
        invariant Prune(bucket, now) == Prune(old(Bucket(key)), now)
        decreases |bucket|
      {
        bucket := bucket[1..];
      }
      remaining := if limit - |bucket| > 0 then limit - |bucket| else 0;
      if |bucket| >= limit {
        buckets := buckets[key := bucket];
        return false, 0;
      }
      bucket := bucket + [now];
      buckets := buckets[key := bucket];
      return true, remaining - 1;
    }
  }

  /** The bucket of a key after its attempts. */
  function BucketAfter(h: seq<Attempt>): seq<real> {
    if h == [] then [] else Checked(BucketAfter(h[..|h| - 1]), h[|h| - 1].limit, h[|h| - 1].now).0
  }

  ghost predicate ClockOrdered(h: seq<Attempt>) {
    forall i, j :: 0 <= i < j < |h| ==> h[i].now <= h[j].now
  }

  ghost predicate Ascending(ts: seq<real>) {
    forall i, j :: 0 <= i < j < |ts| ==> ts[i] <= ts[j]
  }

  // ----- The bucket is the accepted times still in the window -----

  lemma {:induction false} RecentTwice(ts: seq<real>, early: real, late: real)
    requires early <= late
    ensures Recent(Recent(ts, early), late) == Recent(ts, late)
  {
    if ts != [] {
      var front, last := ts[..|ts| - 1], ts[|ts| - 1];
      RecentTwice(front, early, late);
      if early - last <= WINDOW {
        assert (Recent(front, early) + [last])[..|Recent(front, early)|] == Recent(front, early);
      }
    }
  }

  lemma {:induction false} RecentAscending(ts: seq<real>, now: real)
    requires Ascending(ts)
    ensures Ascending(Recent(ts, now)) && forall t :: t in Recent(ts, now) ==> t in ts
  {
    if ts != [] {
      var front, last := ts[..|ts| - 1], ts[|ts| - 1];
      RecentAscending(front, now);
      var r := Recent(front, now);
      forall i | 0 <= i < |r| ensures r[i] <= last {
        assert r[i] in r;
        var j :| 0 <= j < |front| && front[j] == r[i];
      }
    }
  }

  /** Pruning the front of an ascending list keeps exactly the recent times. */
  lemma {:induction false} PruneIsRecent(ts: seq<real>, now: real)
    requires Ascending(ts)
    ensures Prune(ts, now) == Recent(ts, now)
    decreases |ts|
  {
    if ts != [] && now - ts[0] > WINDOW {
      PruneIsRecent(ts[1..], now);
      RecentDropsFirst(ts, now);
    } else {
      AllRecent(ts, now);
    }
  }

  lemma {:induction false} RecentDropsFirst(ts: seq<real>, now: real)
    requires ts != [] && now - ts[0] > WINDOW
    ensures Recent(ts, now) == Recent(ts[1..], now)
  {
    if |ts| > 1 {
      RecentDropsFirst(ts[..|ts| - 1], now);
      assert ts[1..][..|ts| - 2] == ts[..|ts| - 1][1..];
    }
  }

  lemma {:induction false} AllRecent(ts: seq<real>, now: real)
    requires forall i :: 0 <= i < |ts| ==> now - ts[i] <= WINDOW
    ensures Recent(ts, now) == ts
  {
    if ts != [] {
      AllRecent(ts[..|ts| - 1], now);
    }
  }

  lemma {:induction false} AcceptedAscending(h: seq<Attempt>)
    requires ClockOrdered(h)
    ensures Ascending(Accepted(h))
    ensures h != [] ==> forall t :: t in Accepted(h) ==> t <= h[|h| - 1].now
  {
    if h != [] {
      var front, last := h[..|h| - 1], h[|h| - 1];
      AcceptedAscending(front);
      var r := Accepted(front);
      forall t | t in r ensures t <= last.now {
        assert t <= front[|front| - 1].now;
      }
      assert forall i :: 0 <= i < |r| ==> r[i] in r;
    }
  }

  /** What the limiter counts is what was accepted in the window. */
  lemma {:induction false} LiveBucket(h: seq<Attempt>)
    requires ClockOrdered(h) && h != []
    ensures Prune(BucketAfter(h[..|h| - 1]), h[|h| - 1].now) == Recent(Accepted(h[..|h| - 1]), h[|h| - 1].now)
    decreases |h|, 0
  {
    var front, now := h[..|h| - 1], h[|h| - 1].now;
    if front != [] {
      var past := front[|front| - 1].now;
      BucketIsRecent(front);
      AcceptedAscending(front);
      RecentAscending(Accepted(front), past);
      PruneIsRecent(BucketAfter(front), now);
      RecentTwice(Accepted(front), past, now);
    }
  }

  lemma {:induction false} BucketIsRecent(h: seq<Attempt>)
    requires ClockOrdered(h) && h != []
    ensures BucketAfter(h) == Recent(Accepted(h), h[|h| - 1].now)
    decreases |h|, 1
  {
    var before, a := Accepted(h[..|h| - 1]), h[|h| - 1];
    LiveBucket(h);
    if |Recent(before, a.now)| < a.limit {
      assert (before + [a.now])[..|before|] == before;
    }
  }

  lemma {:induction false} RecentCount(ts: seq<real>, now: real)
    ensures |Recent(ts, now)| == |set i | 0 <= i < |ts| && now - ts[i] <= 60.0|
  {
    if ts != [] {
      var front, last := ts[..|ts| - 1], |ts| - 1;
      RecentCount(front, now);
      var below := set i | 0 <= i < |front| && now - front[i] <= 60.0;
      var all := set i | 0 <= i < |ts| && now - ts[i] <= 60.0;
      assert all == below + if now - ts[last] <= 60.0 then {last} else {};
    }
  }

  /** Main result on decisions. Whatever the limits, an attempt is accepted exactly when
      fewer than its limit were accepted in the closed window before it. */
  lemma DecisionExact(h: seq<Attempt>, a: Attempt)
    requires ClockOrdered(h + [a])
    ensures var (_, allowed, remaining) := Checked(BucketAfter(h), a.limit, a.now);
            var recent := |Recent(Accepted(h), a.now)|;
            && (allowed <==> recent < a.limit)
            && (allowed ==> remaining == a.limit - recent - 1)
            && recent == |set i | 0 <= i < |Accepted(h)| && a.now - Accepted(h)[i] <= 60.0|
            && Accepted(h + [a]) == if allowed then Accepted(h) + [a.now] else Accepted(h)
  {
    assert (h + [a])[..|h|] == h;
    LiveBucket(h + [a]);
    RecentCount(Accepted(h), a.now);
  }

  // ----- Bounds over whole histories -----

  /** The times of `ts` in the closed window that starts at `from`. */
  function InWindow(ts: seq<real>, from: real): seq<real> {
    if ts == [] then []
    else
      var rest, t := InWindow(ts[..|ts| - 1], from), ts[|ts| - 1];
      if from <= t <= from + WINDOW then rest + [t] else rest
  }

  lemma {:induction false} WindowWithinRecent(ts: seq<real>, from: real, now: real)
    requires now <= from + WINDOW
    ensures |InWindow(ts, from)| <= |Recent(ts, now)|
  {
    if ts != [] {
      WindowWithinRecent(ts[..|ts| - 1], from, now);
    }
  }

  /** Main result on bounds. When no attempt has a limit above `limit`, no closed window of
      60 seconds holds more than `limit` accepted attempts. */
  lemma {:induction false} WindowBound(h: seq<Attempt>, limit: nat, from: real)
    requires forall i :: 0 <= i < |h| ==> h[i].limit <= limit
    ensures |InWindow(Accepted(h), from)| <= limit
  {
    if h != [] {
      var before, a := Accepted(h[..|h| - 1]), h[|h| - 1];
      WindowBound(h[..|h| - 1], limit, from);
      if |Recent(before, a.now)| < a.limit {
        assert (before + [a.now])[..|before|] == before;
        if from <= a.now <= from + WINDOW {
          WindowWithinRecent(before, from, a.now);
        }
      }
    }
  }

  /** The history with `n` more attempts like `a`. */
  function Repeated(h: seq<Attempt>, a: Attempt, n: nat): seq<Attempt> {
    if n == 0 then h else Repeated(h, a, n - 1) + [a]
  }

  /** How many of `n` further attempts with the limit of `a` have room. */
  function Room(h: seq<Attempt>, a: Attempt, n: nat): nat {
    AtMost(a.limit - |Recent(Accepted(h), a.now)|, n)
  }

  function AtMost(left: int, n: nat): nat {
    if left <= 0 then 0 else if n < left then n else left
  }

  /** Of `n` further attempts at the same instant exactly as many pass as have room. */
  lemma {:induction false} RemainingExact(h: seq<Attempt>, a: Attempt, n: nat)
    ensures |Accepted(Repeated(h, a, n))| == |Accepted(h)| + Room(h, a, n)
    ensures |Recent(Accepted(Repeated(h, a, n)), a.now)| == |Recent(Accepted(h), a.now)| + Room(h, a, n)
  {
    RemainingFrom(h, a, |Accepted(h)|, |Recent(Accepted(h), a.now)|, n);
  }

  lemma {:induction false} RemainingFrom(h: seq<Attempt>, a: Attempt, accepted: nat, live: nat, n: nat)
    requires |Accepted(h)| == accepted && |Recent(Accepted(h), a.now)| == live
    ensures |Accepted(Repeated(h, a, n))| == accepted + AtMost(a.limit - live, n)
    ensures |Recent(Accepted(Repeated(h, a, n)), a.now)| == live + AtMost(a.limit - live, n)
    decreases n
  {
    if n > 0 {
      RemainingFrom(h, a, accepted, live, n - 1);
      OneMorePasses(Repeated(h, a, n - 1), a, accepted, live, n);
    }
  }

  lemma OneMorePasses(before: seq<Attempt>, a: Attempt, accepted: nat, live: nat, n: nat)
    requires n > 0
    requires |Accepted(before)| == accepted + AtMost(a.limit - live, n - 1)
    requires |Recent(Accepted(before), a.now)| == live + AtMost(a.limit - live, n - 1)
    ensures |Accepted(before + [a])| == accepted + AtMost(a.limit - live, n)
    ensures |Recent(Accepted(before + [a]), a.now)| == live + AtMost(a.limit - live, n)
  {
  }

  // ----- The remainder a call returns -----

  /** How many of `n` calls at one instant, one after the other, are accepted. */
  function Passing(bucket: seq<real>, limit: int, now: real, n: nat): nat
    decreases n
  {
    if n == 0 then 0
    else
      var (next, allowed, _) := Checked(bucket, limit, now);
      (if allowed then 1 else 0) + Passing(next, limit, now, n - 1)
  }

  /** Main result on the remainder. After an accepted call exactly as many of `n` further
      calls at that instant pass as the call said remain; after a refused one none does. */
  lemma RemainingPass(bucket: seq<real>, limit: int, now: real, n: nat)
    ensures var (next, allowed, remaining) := Checked(bucket, limit, now);
            && remaining >= 0 && (!allowed ==> remaining == 0)
            && Passing(next, limit, now, n) == if n < remaining then n else remaining
  {
    PruneEnds(bucket, now);
    LivePass(Checked(bucket, limit, now).0, limit, now, n);
  }

  lemma {:induction false} PruneEnds(bucket: seq<real>, now: real)
    ensures Prune(bucket, now) == [] || now - Prune(bucket, now)[0] <= WINDOW
    decreases |bucket|
  {
    if bucket != [] && now - bucket[0] > WINDOW {
      PruneEnds(bucket[1..], now);
    }
  }

  lemma {:induction false} LivePass(live: seq<real>, limit: int, now: real, n: nat)
    requires live == [] || now - live[0] <= WINDOW
    ensures Passing(live, limit, now, n) ==
              if limit <= |live| then 0 else if n < limit - |live| then n else limit - |live|
    decreases n
  {
    if n > 0 {
      LivePass(if |live| < limit then live + [now] else live, limit, now, n - 1);
    }
  }

  // ----- Counting written out -----

  lemma {:induction false} InWindowCount(ts: seq<real>, from: real)
    ensures |InWindow(ts, from)| == |set i | 0 <= i < |ts| && from <= ts[i] <= from + 60.0|
  {
    if ts != [] {
      var front, last := ts[..|ts| - 1], |ts| - 1;
      InWindowCount(front, from);
      var below := set i | 0 <= i < |front| && from <= front[i] <= from + 60.0;
      var all := set i | 0 <= i < |ts| && from <= ts[i] <= from + 60.0;
      assert all == below + if from <= ts[last] <= from + 60.0 then {last} else {};
    }
  }

  /** The bound by count: of the calls accepted, at most `limit` fall in any 60 seconds. */
  lemma WindowBoundByCount(h: seq<Attempt>, limit: nat, from: real)
    requires forall i :: 0 <= i < |h| ==> h[i].limit <= limit
    ensures |set i | 0 <= i < |Accepted(h)| && from <= Accepted(h)[i] <= from + 60.0| <= limit
  {
    WindowBound(h, limit, from);
    InWindowCount(Accepted(h), from);
  }
}
