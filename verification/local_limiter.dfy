/**
  The in-process sliding-window-log limiter: one timestamp window per key,
  where the key is `user + ":" + model`, plus allowed/denied counters.

  Each operation is modelled as one atomic step returning its result together
  with the new limiter state; the locks are left out.
 */
module LocalLimiter {
  import opened Wrappers
  import opened SlidingWindow

  datatype Limiter = Limiter(
    maxRequests: int,
    windowSeconds: int,
    windows: map<string, seq<int>>,
    allowedCount: nat,
    deniedCount: nat)

  /** A new limiter keeps the configuration it is given and starts with no windows and zero counters. */
  function NewLimiter(maxRequests: int, windowSeconds: int): (l: Limiter)
    ensures l.maxRequests == maxRequests && l.windowSeconds == windowSeconds
    ensures l.windows == map[]
    ensures forall key :: Window(l, key) == []
    ensures l.allowedCount == 0 && l.deniedCount == 0
  {
    Limiter(maxRequests, windowSeconds, map[], 0, 0)
  }

  /** The key shared by a user and a model: the two joined by a colon. */
  function Key(user: string, model: string): (k: string)
    ensures |k| == |user| + 1 + |model|
    ensures k[..|user|] == user && k[|user|] == ':' && k[|user| + 1..] == model
  {
    user + ":" + model
  }

  /** The window recorded under `key`; a key never seen has an empty window. */
  function Window(l: Limiter, key: string): seq<int> {
    if key in l.windows then l.windows[key] else []
  }

  predicate HasPrefix(s: string, prefix: string) {
    |prefix| <= |s| && s[..|prefix|] == prefix
  }

  predicate SameConfig(a: Limiter, b: Limiter) {
    a.maxRequests == b.maxRequests && a.windowSeconds == b.windowSeconds
  }

  /** `a` and `b` hold the same keys with the same windows, except possibly at `key`. */
  ghost predicate SameElsewhere(a: Limiter, b: Limiter, key: string) {
    forall k :: k != key ==> (k in a.windows <==> k in b.windows) && Window(a, k) == Window(b, k)
  }

  /**
    `allow`: purge the key's window of timestamps before `now - windowSeconds`,
    admit iff what remains is below `maxRequests`, and record `now` only on
    admission. The key is created even when the request is denied.
   */
  function Allow(l: Limiter, user: string, model: string, now: int): (r: (bool, Limiter))
    ensures var key := Key(user, model);
            var kept := Purge(Window(l, key), now - l.windowSeconds);
            && (r.0 <==> |kept| < l.maxRequests)
            && key in r.1.windows
            && (r.0 ==> Window(r.1, key) == kept + [now])
            && (!r.0 ==> Window(r.1, key) == kept)
            && SameElsewhere(l, r.1, key)
    ensures SameConfig(l, r.1)
    ensures r.0 ==> r.1.allowedCount == l.allowedCount + 1 && r.1.deniedCount == l.deniedCount
    ensures !r.0 ==> r.1.deniedCount == l.deniedCount + 1 && r.1.allowedCount == l.allowedCount
  {
    var key := Key(user, model);
    var kept := Purge(Window(l, key), now - l.windowSeconds);
    if |kept| < l.maxRequests then
      (true, l.(windows := l.windows[key := AddRequest(kept, now)], allowedCount := l.allowedCount + 1))
    else
      (false, l.(windows := l.windows[key := kept], deniedCount := l.deniedCount + 1))
  }

  /**
    `get_request_count`: 0 for a key never seen (and no key is created);
    otherwise the key's window is purged in place and its length returned.
    Nothing is ever appended and the counters are untouched.
   */
  function GetRequestCount(l: Limiter, user: string, model: string, now: int): (r: (nat, Limiter))
    ensures var key := Key(user, model);
            var ws := now - l.windowSeconds;
            && r.0 == |Window(l, key)| - CountBelow(Window(l, key), ws)
            && r.1.windows.Keys == l.windows.Keys
            && Window(r.1, key) == Purge(Window(l, key), ws)
            && |Window(r.1, key)| == r.0
            && SameElsewhere(l, r.1, key)
    ensures Key(user, model) !in l.windows ==> r.0 == 0 && r.1 == l
    ensures SameConfig(l, r.1) && r.1.allowedCount == l.allowedCount && r.1.deniedCount == l.deniedCount
  {
    var key := Key(user, model);
    var ws := now - l.windowSeconds;
    PurgeCount(Window(l, key), ws);
    if key !in l.windows then (0, l)
    else
      var kept := Purge(l.windows[key], ws);
      (CurrentCount(kept, ws), l.(windows := l.windows[key := kept]))
  }

  /** `reset_user(user, model)`: forget exactly the window of `Key(user, model)`. */
  function ResetUserModel(l: Limiter, user: string, model: string): (r: Limiter)
    ensures r.windows.Keys == l.windows.Keys - {Key(user, model)}
    ensures forall k :: k in r.windows ==> r.windows[k] == l.windows[k]
    ensures SameConfig(l, r) && r.allowedCount == l.allowedCount && r.deniedCount == l.deniedCount
  {
    l.(windows := l.windows - {Key(user, model)})
  }

  /** `reset_user(user)`: forget every window whose key starts with `user + ":"`. */
  function ResetUserAll(l: Limiter, user: string): (r: Limiter)
    ensures forall k :: k in r.windows <==> k in l.windows && !HasPrefix(k, user + ":")
    ensures forall k :: k in r.windows ==> r.windows[k] == l.windows[k]
    ensures SameConfig(l, r) && r.allowedCount == l.allowedCount && r.deniedCount == l.deniedCount
  {
    l.(windows := map k | k in l.windows && !HasPrefix(k, user + ":") :: l.windows[k])
  }

  /**
    `reset_user(user, model_id)`: `rate_limiter.py` tests `if model_id:`, so an
    absent model and the empty model both reset every model of the user.
   */
  function ResetUser(l: Limiter, user: string, model: Option<string>): (r: Limiter)
    ensures model.Some? && model.value != "" ==> r.windows.Keys == l.windows.Keys - {Key(user, model.value)}
    ensures (model == None || model == Some("")) ==>
              forall k :: k in r.windows <==> k in l.windows && !HasPrefix(k, user + ":")
    ensures forall k :: k in r.windows ==> k in l.windows && r.windows[k] == l.windows[k]
    ensures SameConfig(l, r) && r.allowedCount == l.allowedCount && r.deniedCount == l.deniedCount
  {
    if model.Some? && model.value != "" then ResetUserModel(l, user, model.value)
    else ResetUserAll(l, user)
  }

  /** The integer part of `get_metrics`; the floating-point deny rate is not modelled. */
  datatype Metrics = Metrics(allowedCount: nat, deniedCount: nat, totalRequests: nat, activeKeys: nat)

  function GetMetrics(l: Limiter): (m: Metrics)
    ensures m.totalRequests == m.allowedCount + m.deniedCount
    ensures m.allowedCount == l.allowedCount && m.deniedCount == l.deniedCount
    ensures m.activeKeys == |l.windows.Keys|
  {
    Metrics(l.allowedCount, l.deniedCount, l.allowedCount + l.deniedCount, |l.windows|)
  }

  function ResetMetrics(l: Limiter): (r: Limiter)
    ensures r.allowedCount == 0 && r.deniedCount == 0
    ensures r.windows == l.windows && SameConfig(l, r)
  {
    l.(allowedCount := 0, deniedCount := 0)
  }

  // ---------------------------------------------------------------------------
  // Keys
  // ---------------------------------------------------------------------------

  /** Joining with a colon is not injective: a colon may move between user and model. */
  lemma KeyShiftsColon(user: string, middle: string, model: string)
    ensures Key(user + ":" + middle, model) == Key(user, middle + ":" + model)
  {
  }

  /** The concrete collision: users "a:b" and "a" share the window of models "c" and "b:c". */
  lemma DistinctPairsShareWindow(l: Limiter, now: int)
    ensures ("a:b", "c") != ("a", "b:c")
    ensures Key("a:b", "c") == Key("a", "b:c")
    ensures Allow(l, "a:b", "c", now) == Allow(l, "a", "b:c", now)
  {
  }

  /** When no user contains a colon, the key does identify the pair. */
  lemma KeyInjectiveWithoutColonInUser(u1: string, m1: string, u2: string, m2: string)
    requires ':' !in u1 && ':' !in u2
    requires Key(u1, m1) == Key(u2, m2)
    ensures u1 == u2 && m1 == m2
  {
  }

  // ---------------------------------------------------------------------------
  // The window invariant: sorted, no later than the clock, within the cap
  // ---------------------------------------------------------------------------

  /** The most timestamps a window may hold: a negative maximum admits nothing. */
  function Cap(maxRequests: int): nat {
    if maxRequests < 0 then 0 else maxRequests
  }

  predicate WindowOk(ts: seq<int>, maxRequests: int, clock: int) {
    Sorted(ts) && AllAtMost(ts, clock) && |ts| <= Cap(maxRequests)
  }

  /** Every window of `l` is sorted, holds no timestamp after `clock`, and respects the cap. */
  predicate Valid(l: Limiter, clock: int) {
    forall k :: k in l.windows ==> WindowOk(l.windows[k], l.maxRequests, clock)
  }

  lemma NewLimiterValid(maxRequests: int, windowSeconds: int, clock: int)
    ensures Valid(NewLimiter(maxRequests, windowSeconds), clock)
    ensures GetMetrics(NewLimiter(maxRequests, windowSeconds)) == Metrics(0, 0, 0, 0)
  {
  }

  /** A limiter valid at one clock is valid at every later clock. */
  lemma NowValid(l: Limiter, clock: int, later: int)
    requires Valid(l, clock) && clock <= later
    ensures Valid(l, later)
  {
  }

  /** A purged window of a valid window is valid. */
  lemma PurgeKeepsWindowOk(ts: seq<int>, ws: int, maxRequests: int, clock: int)
    requires WindowOk(ts, maxRequests, clock)
    ensures WindowOk(Purge(ts, ws), maxRequests, clock)
  {
    PurgeSortedSuffix(ts, ws);
    var p := Purge(ts, ws);
    forall i | 0 <= i < |p|
      ensures p[i] <= clock
    {
      assert p[i] in p;
      var j :| 0 <= j < |ts| && ts[j] == p[i];
    }
  }

  /** `allow` at a clock no earlier than the last keeps every window sorted and within the cap. */
  lemma AllowKeepsValid(l: Limiter, clock: int, user: string, model: string, now: int)
    requires Valid(l, clock) && clock <= now
    ensures Valid(Allow(l, user, model, now).1, now)
  {
    var key := Key(user, model);
    var r := Allow(l, user, model, now);
    var ts := Window(l, key);
    var kept := Purge(ts, now - l.windowSeconds);
    assert WindowOk(ts, l.maxRequests, now);
    PurgeKeepsWindowOk(ts, now - l.windowSeconds, l.maxRequests, now);
    if r.0 {
      AddRequestKeepsOrder(kept, now);
    }
    forall k | k in r.1.windows
      ensures WindowOk(r.1.windows[k], r.1.maxRequests, now)
    {
      if k != key {
        assert r.1.windows[k] == l.windows[k];
        assert WindowOk(l.windows[k], l.maxRequests, clock);
      }
    }
  }

  lemma GetRequestCountKeepsValid(l: Limiter, clock: int, user: string, model: string, now: int)
    requires Valid(l, clock)
    ensures Valid(GetRequestCount(l, user, model, now).1, clock)
  {
    var key := Key(user, model);
    if key in l.windows {
      PurgeKeepsWindowOk(l.windows[key], now - l.windowSeconds, l.maxRequests, clock);
    }
  }

  lemma ResetKeepsValid(l: Limiter, clock: int, user: string, model: Option<string>)
    requires Valid(l, clock)
    ensures Valid(ResetUser(l, user, model), clock)
    ensures Valid(ResetMetrics(l), clock)
  {
  }

  // ---------------------------------------------------------------------------
  // Counting agrees with deciding
  // ---------------------------------------------------------------------------

  /** The read-only count predicts the decision: `allow` admits iff the count is below the maximum. */
  lemma CountPredictsAllow(l: Limiter, user: string, model: string, now: int)
    ensures Allow(l, user, model, now).0 <==> GetRequestCount(l, user, model, now).0 < l.maxRequests
  {
  }

  /** Observing a count never changes what `allow` then does. */
  lemma CountIsObservationOnly(l: Limiter, user: string, model: string, now: int)
    ensures Allow(GetRequestCount(l, user, model, now).1, user, model, now) == Allow(l, user, model, now)
  {
    var key := Key(user, model);
    var ws := now - l.windowSeconds;
    PurgeIdempotent(Window(l, key), ws);
    var c := GetRequestCount(l, user, model, now).1;
    if key in l.windows {
      assert c.windows[key := Purge(Purge(l.windows[key], ws), ws)] == l.windows[key := Purge(l.windows[key], ws)];
      assert c.windows[key := Purge(Purge(l.windows[key], ws), ws) + [now]]
          == l.windows[key := Purge(l.windows[key], ws) + [now]];
    }
  }

  /** An admitted request is counted straight away (with a non-negative window). */
  lemma AllowThenCount(l: Limiter, user: string, model: string, now: int)
    requires l.windowSeconds >= 0
    requires Allow(l, user, model, now).0
    ensures GetRequestCount(Allow(l, user, model, now).1, user, model, now).0
         == GetRequestCount(l, user, model, now).0 + 1
  {
    var key := Key(user, model);
    var ws := now - l.windowSeconds;
    var kept := Purge(Window(l, key), ws);
    PurgeIdempotent(Window(l, key), ws);
    PurgeAppend(kept, now, ws);
  }

  // ---------------------------------------------------------------------------
  // Sequences of calls
  // ---------------------------------------------------------------------------

  datatype Request = Request(user: string, model: string, now: int)

  /** Applies `allow` to each request in turn, collecting the decisions. */
  function Run(l: Limiter, reqs: seq<Request>): (r: (seq<bool>, Limiter))
    ensures |r.0| == |reqs|
    decreases |reqs|
  {
    if |reqs| == 0 then ([], l)
    else
      var first := Allow(l, reqs[0].user, reqs[0].model, reqs[0].now);
      var rest := Run(first.1, reqs[1..]);
      ([first.0] + rest.0, rest.1)
  }

  /** The request clocks never go backwards, starting from `clock`. */
  predicate Ordered(clock: int, reqs: seq<Request>)
    decreases |reqs|
  {
    |reqs| == 0 || (clock <= reqs[0].now && Ordered(reqs[0].now, reqs[1..]))
  }

  function LastClock(clock: int, reqs: seq<Request>): int {
    if |reqs| == 0 then clock else reqs[|reqs| - 1].now
  }

  function CountTrue(bs: seq<bool>): (n: nat)
    ensures n <= |bs|
  {
    if |bs| == 0 then 0 else (if bs[0] then 1 else 0) + CountTrue(bs[1..])
  }

  /** Along any run with non-decreasing clocks every window stays sorted and never exceeds the cap. */
  lemma {:induction false} RunKeepsValid(l: Limiter, clock: int, reqs: seq<Request>)
    requires Valid(l, clock) && Ordered(clock, reqs)
    ensures Valid(Run(l, reqs).1, LastClock(clock, reqs))
    ensures SameConfig(l, Run(l, reqs).1)
    decreases |reqs|
  {
    if |reqs| > 0 {
      var next := Allow(l, reqs[0].user, reqs[0].model, reqs[0].now).1;
      AllowKeepsValid(l, clock, reqs[0].user, reqs[0].model, reqs[0].now);
      assert SameConfig(l, next);
      RunKeepsValid(next, reqs[0].now, reqs[1..]);
      assert Run(l, reqs).1 == Run(next, reqs[1..]).1;
    }
  }

  /** From an empty limiter, every window of every run is sorted and holds at most `maxRequests`. */
  lemma RunFromEmptyWithinCap(maxRequests: int, windowSeconds: int, clock: int, reqs: seq<Request>)
    requires Ordered(clock, reqs)
    ensures var l := Run(NewLimiter(maxRequests, windowSeconds), reqs).1;
            forall k :: k in l.windows ==> Sorted(l.windows[k]) && |l.windows[k]| <= Cap(maxRequests)
  {
    RunKeepsValid(NewLimiter(maxRequests, windowSeconds), clock, reqs);
  }

  /** No window of `l` holds more than `maxRequests` timestamps. */
  predicate WithinCap(l: Limiter) {
    forall k :: k in l.windows ==> |l.windows[k]| <= Cap(l.maxRequests)
  }

  /** One call never pushes a window past the cap, whatever its clock. */
  lemma AllowKeepsCap(l: Limiter, user: string, model: string, now: int)
    requires WithinCap(l)
    ensures WithinCap(Allow(l, user, model, now).1)
  {
  }

  /**
    The cap holds along every run, in any clock order: calls on one key take
    effect in lock order, which need not be the order of their clock reads.
   */
  lemma {:induction false} RunWithinCapAnyClock(l: Limiter, reqs: seq<Request>)
    requires WithinCap(l)
    ensures WithinCap(Run(l, reqs).1)
    ensures Run(l, reqs).1.maxRequests == l.maxRequests
    decreases |reqs|
  {
    if |reqs| > 0 {
      var next := Allow(l, reqs[0].user, reqs[0].model, reqs[0].now).1;
      AllowKeepsCap(l, reqs[0].user, reqs[0].model, reqs[0].now);
      RunWithinCapAnyClock(next, reqs[1..]);
      assert Run(l, reqs).1 == Run(next, reqs[1..]).1;
    }
  }

  /** Calls whose clocks go backwards leave a window unsorted, though none exceeds the cap. */
  lemma OutOfOrderRunUnsorted()
    ensures var l := Run(NewLimiter(5, 100), [Request("u", "m", 2), Request("u", "m", 1)]).1;
            && Window(l, Key("u", "m")) == [2, 1]
            && !Sorted(Window(l, Key("u", "m")))
  {
    var l0 := NewLimiter(5, 100);
    var l1 := Allow(l0, "u", "m", 2).1;
    assert Window(l1, Key("u", "m")) == [2];
    var l2 := Allow(l1, "u", "m", 1).1;
    assert Purge([2], 1 - 100) == [2];
    assert Window(l2, Key("u", "m")) == [2, 1];
    assert Run(l0, [Request("u", "m", 2), Request("u", "m", 1)]).1 == l2;
  }

  /** Each decision bumps exactly one counter: allowed counts admissions, denied counts the rest. */
  lemma {:induction false} RunCounts(l: Limiter, reqs: seq<Request>)
    ensures var r := Run(l, reqs);
            && r.1.allowedCount == l.allowedCount + CountTrue(r.0)
            && r.1.deniedCount == l.deniedCount + |reqs| - CountTrue(r.0)
            && GetMetrics(r.1).totalRequests == GetMetrics(l).totalRequests + |reqs|
    decreases |reqs|
  {
    if |reqs| > 0 {
      var first := Allow(l, reqs[0].user, reqs[0].model, reqs[0].now);
      RunCounts(first.1, reqs[1..]);
      var r := Run(l, reqs);
      assert r.0[1..] == Run(first.1, reqs[1..]).0;
    }
  }

  /** With a maximum of zero or less every request is denied and nothing is ever recorded. */
  lemma {:induction false} ZeroLimitDeniesAll(l: Limiter, reqs: seq<Request>)
    requires l.maxRequests <= 0
    requires forall k :: k in l.windows ==> l.windows[k] == []
    ensures var r := Run(l, reqs);
            && (forall i :: 0 <= i < |r.0| ==> !r.0[i])
            && (forall k :: k in r.1.windows ==> r.1.windows[k] == [])
            && r.1.allowedCount == l.allowedCount
    decreases |reqs|
  {
    if |reqs| > 0 {
      var first := Allow(l, reqs[0].user, reqs[0].model, reqs[0].now);
      assert !first.0;
      assert first.1.maxRequests <= 0;
      assert forall k :: k in first.1.windows ==> first.1.windows[k] == [];
      ZeroLimitDeniesAll(first.1, reqs[1..]);
    }
  }

  // ---------------------------------------------------------------------------
  // Resets
  // ---------------------------------------------------------------------------

  /** After `reset_user(user, model)` the next request for that pair is admitted when the maximum is positive. */
  lemma ResetModelThenAdmit(l: Limiter, user: string, model: string, now: int)
    requires l.maxRequests > 0
    ensures Allow(ResetUser(l, user, Some(model)), user, model, now).0
  {
  }

  /** After `reset_user(user)` every model of that user is admitted again when the maximum is positive. */
  lemma ResetAllThenAdmit(l: Limiter, user: string, model: string, now: int)
    requires l.maxRequests > 0
    ensures Allow(ResetUser(l, user, None), user, model, now).0
  {
  }

  /** The prefix reset of `user` also wipes every user whose name begins with `user + ":"`. */
  lemma ResetAllWipesColonUsers(l: Limiter, user: string, suffix: string, model: string)
    ensures Key(user + ":" + suffix, model) !in ResetUser(l, user, None).windows
  {
  }

  /** Resetting counters forgets no window. */
  lemma ResetMetricsKeepsWindows(l: Limiter, user: string, model: string, now: int)
    ensures GetRequestCount(ResetMetrics(l), user, model, now).0 == GetRequestCount(l, user, model, now).0
    ensures GetMetrics(ResetMetrics(l)) == Metrics(0, 0, 0, |l.windows|)
  {
  }
}
