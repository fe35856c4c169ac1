# Sliding-window-log rate limiter, modelled in Dafny

This project models the decision core of a sliding-window-log rate limiter
for AI inference requests. The limiter keeps, per key, a log of request
timestamps. For each request it

1. purges the entries older than `now - window_seconds`,
2. compares the remaining count with `max_requests`,
3. appends `now` only when the request is admitted.

There are two implementations of this purge, count, compare and append step,
plus a combinator that chains several limiters:

- **Local store and limiter** (`rate_limiter.py`). `SlidingWindowEntry` holds
  one timestamp list. `RateLimiter` keeps one entry per key `user + ":" + model`,
  with allowed and denied counters. `MultiTierRateLimiter` chains three kinds
  of limiter: per user and model, global per model, and optional per model tier.
- **Atomic Redis script** (`distributed_rate_limiter.py`). The same algorithm
  runs as one Lua script over a Redis sorted set. The set is read as a map from
  member (the request id) to score (the timestamp). `RedisRateLimiter` hosts the
  script under the key `"ratelimit:" + user + ":" + model`.

Time is an abstract integer tick passed in as an explicit `now`. Every
operation is a pure function from a state to a result and a new state. Each
call is modelled as one atomic step; the locks are left out (see "## Left out").

Modules:

- `SlidingWindow` (sliding_window.dfy): the timestamp log, the purge, and `clean_expired` written as a loop.
- `LocalLimiter` (local_limiter.dfy): `RateLimiter` over `map<string, seq<int>>`, its window invariant, and runs of `allow` calls.
- `MultiTier` (multi_tier.dfy): `MultiTierRateLimiter`.
- `RedisScript` (redis_script.dfy): the sorted-set commands and the Lua script as a pure transition.
- `RedisLimiter` (redis_limiter.dfy): the key layout, the script applied to a store of sorted sets, the count and the reset.
- `Boundary` (boundary.dfy): how the local purge and the script's purge relate.
- `Wrappers` (wrappers.dfy): `Option`, for the Python code's optional arguments.

Behaviour of the code as written, proved here rather than corrected:

- **The purge boundaries differ.** The local purge keeps a timestamp equal to the window start (`ts >= window_start`). The script's `ZREMRANGEBYSCORE -inf window_start` drops it, because that bound is inclusive. `Boundary.KeptLocallyDroppedRemotely` and `Boundary.BoundaryDecisionsDiffer` show this. `Boundary.SameDecisionAwayFromBoundary` shows that the two decide alike whenever no request sits exactly on the boundary.
- **The key is not injective.** `("a:b", "c")` and `("a", "b:c")` share one window (`LocalLimiter.DistinctPairsShareWindow`).
- **The user reset matches a prefix.** `reset_user(u)` removes every key that starts with `u + ":"`. It therefore also wipes users named `u:x` (`LocalLimiter.ResetAllWipesColonUsers`).
- **An empty model id resets everything.** The code tests `if model_id:`. So an empty model id resets every model of the user, just as an absent one does.
- **A denied request still creates its key.** `allow` creates the key before it compares. The key therefore exists even when the request is denied, and it shows up in `active_keys`.
- **The locks are taken in opposite orders.** `allow` holds the key's lock and then takes the dictionary lock (rate_limiter.py:123-126). `reset_user(u)` holds the dictionary lock and then takes each key's lock (rate_limiter.py:191-198). An `allow` and a user reset running at the same time can therefore deadlock. `get_metrics` also reads the counters after leaving the metrics lock (rate_limiter.py:212-217), so that call is not atomic either. Neither effect appears in the model, which treats every call as one atomic step.
- **Sorted windows need calls in clock order.** The comment at rate_limiter.py:26 calls each window sorted. But `allow` reads `time.time()` (rate_limiter.py:119) before it takes the key's lock (rate_limiter.py:123), so calls on one key take effect in lock order, and a wall clock can also step back. Sortedness therefore holds only when calls take effect in clock order (`LocalLimiter.RunKeepsValid`). `LocalLimiter.OutOfOrderRunUnsorted` shows a two-call run that leaves the window `[2, 1]`. The cap does not depend on the order: `LocalLimiter.RunWithinCapAnyClock` proves it for any clocks.
- **The Redis call uses keyword names that redis-py does not declare.** `allow` calls `self.redis.evalsha(sha=..., numkeys=1, keys=[key], args=[...])` (distributed_rate_limiter.py:144-149 and again in the retry at 156-161). redis-py declares `evalsha(sha, numkeys, *keys_and_args)`, which has no `keys` or `args` parameter. Read against that signature, the call raises `TypeError` before the script runs. The `except NoScriptError` does not catch that, so `allow` returns no decision. This is not executed. `RedisLimiter.Allow` models the intended call: the script on `KEYS[1] = key` with ARGV `now, window_seconds, max_requests, request_id`.
- **Replays do not repeat the original decision.** Replaying a request id never double-counts. However, a replay at capacity is answered 0 even though the first call was admitted (`RedisScript.ReplayAtCapacityIsDenied`).

The docstrings call the limiter retry-safe (distributed_rate_limiter.py:72, 125). The model proves that half of the claim which the code delivers: a replay never double-counts. It also shows that the decision itself is not repeated.

## Model

| member | source | states |
|---|---|---|
| SlidingWindow.Purge | rate_limiter.py:37-40 | the kept log holds exactly the timestamps of the input at or after the window start, and is never longer than the input |
| SlidingWindow.CleanExpired | rate_limiter.py:32-40 | the loop keeps exactly the purged log and reports as removed the number of expired timestamps, which is the length lost |
| SlidingWindow.AddRequest | rate_limiter.py:28-30 | recording keeps every earlier timestamp in place and puts the new one last, growing the log by one |
| SlidingWindow.CurrentCount | rate_limiter.py:42-47 | on a log already cleaned for the window start, the count is the number of requests in the window, none having expired |
| SlidingWindow.IsEmpty | rate_limiter.py:49-51 | an entry is empty iff it holds no timestamp, that is iff its current count is zero |
| SlidingWindow.NoneBelow | rate_limiter.py:42-47 | a log with nothing before the window start has nothing to clean |
| SlidingWindow.PurgeAppend | rate_limiter.py:39 | purging a log extended by one timestamp keeps the purged prefix and keeps the new timestamp iff it is recent |
| SlidingWindow.PurgeCount | rate_limiter.py:37-40 | kept plus expired timestamps make up the whole log |
| SlidingWindow.PurgeKeepsAll | rate_limiter.py:39 | a log with no expired timestamp is left as it is |
| SlidingWindow.PurgeSortedSuffix | rate_limiter.py:26 | on a sorted log the purge removes a prefix, so what remains is a suffix and stays sorted |
| SlidingWindow.PurgeIdempotent | rate_limiter.py:129 | purging twice at the same window start is the same as purging once |
| SlidingWindow.PurgeMonotone | rate_limiter.py:120 | a purge at a later window start subsumes one at an earlier start |
| SlidingWindow.AddRequestKeepsOrder | rate_limiter.py:28-30 | appending a timestamp no earlier than every recorded one keeps the log sorted |
| SlidingWindow.CountAfterClean | rate_limiter.py:42-47 | after cleaning, the current count is the log length minus the expired timestamps |
| SlidingWindow.EmptyAfterClean | rate_limiter.py:49-51 | after cleaning, the entry is empty iff every timestamp had expired |
| LocalLimiter.Key | rate_limiter.py:93-95 | the key is the user, one colon, then the model |
| LocalLimiter.NewLimiter | rate_limiter.py:69-91 | a new limiter keeps the maximum and window it is given, holds no window for any key, and starts both counters at zero |
| LocalLimiter.KeyShiftsColon | rate_limiter.py:93-95 | moving a colon from the model into the user gives the same key, so the key is not injective |
| LocalLimiter.DistinctPairsShareWindow | rate_limiter.py:118 | the distinct pairs ("a:b","c") and ("a","b:c") get the same key and identical allow outcomes |
| LocalLimiter.KeyInjectiveWithoutColonInUser | rate_limiter.py:93-95 | when neither user contains a colon, equal keys mean equal users and equal models |
| LocalLimiter.Allow | rate_limiter.py:107-146 | admits iff the purged window holds fewer than max_requests; on admission the window becomes the purged one plus now at the end, otherwise the purged one; the key exists afterwards; every other key is unchanged; exactly one counter goes up |
| LocalLimiter.GetRequestCount | rate_limiter.py:148-172 | returns the recorded minus the expired timestamps and leaves the window purged; an unseen key gives 0 and changes nothing; no key is created, nothing is appended, counters are untouched |
| LocalLimiter.ResetUserModel | rate_limiter.py:183-188 | removes exactly the key user:model and keeps every other window |
| LocalLimiter.ResetUserAll | rate_limiter.py:189-199 | removes exactly the keys starting with user followed by a colon and keeps every other window |
| LocalLimiter.ResetUser | rate_limiter.py:174-199 | a non-empty model resets one key; an absent or empty model resets every key of the user; the remaining windows and the counters are unchanged |
| LocalLimiter.GetMetrics | rate_limiter.py:201-218 | total requests is allowed plus denied; active keys is the number of tracked keys |
| LocalLimiter.ResetMetrics | rate_limiter.py:220-224 | both counters become zero and every window is kept |
| LocalLimiter.NewLimiterValid | rate_limiter.py:69-91 | a new limiter satisfies the window invariant at any clock and reports all-zero metrics |
| LocalLimiter.PurgeKeepsWindowOk | rate_limiter.py:129 | purging a sorted window that is within the cap and not later than the clock keeps all three properties |
| LocalLimiter.AllowKeepsValid | rate_limiter.py:128-141 | with a clock no earlier than the last, allow keeps every window sorted, not later than now, and within max_requests |
| LocalLimiter.GetRequestCountKeepsValid | rate_limiter.py:171-172 | counting keeps the window invariant |
| LocalLimiter.ResetKeepsValid | rate_limiter.py:174-224 | the resets keep the window invariant |
| LocalLimiter.CountPredictsAllow | rate_limiter.py:135 | allow admits iff get_request_count at the same instant is below max_requests |
| LocalLimiter.CountIsObservationOnly | rate_limiter.py:171 | calling get_request_count before allow does not change allow's result or its resulting state |
| LocalLimiter.AllowThenCount | rate_limiter.py:136 | with a non-negative window, an admitted request raises the count at the same instant by exactly one |
| LocalLimiter.RunKeepsValid | rate_limiter.py:118-146 | along any run of allow calls with non-decreasing clocks the window invariant holds after every step |
| LocalLimiter.RunFromEmptyWithinCap | rate_limiter.py:135-136 | from an empty limiter, every window of every run with non-decreasing clocks is sorted and never longer than max_requests |
| LocalLimiter.AllowKeepsCap | rate_limiter.py:129-141 | one allow call, at any clock, keeps every window within max_requests |
| LocalLimiter.RunWithinCapAnyClock | rate_limiter.py:118-146 | along any run of allow calls, whatever the order of their clocks, no window ever holds more than max_requests |
| LocalLimiter.OutOfOrderRunUnsorted | rate_limiter.py:119-141 | two calls whose clocks go backwards leave the window [2, 1], which is not sorted |
| LocalLimiter.RunCounts | rate_limiter.py:138-146 | over a run, allowed_count grows by the admissions, denied_count by the denials, and total_requests by the number of calls |
| LocalLimiter.ZeroLimitDeniesAll | rate_limiter.py:135 | with max_requests at most zero every call of a run is denied and every window stays empty |
| LocalLimiter.ResetModelThenAdmit | rate_limiter.py:183-188 | after reset_user(user, model), allow for that pair admits when max_requests is positive |
| LocalLimiter.ResetAllThenAdmit | rate_limiter.py:189-199 | after reset_user(user), allow admits for every model of the user when max_requests is positive |
| LocalLimiter.ResetAllWipesColonUsers | rate_limiter.py:195 | reset_user(u) also removes the windows of every user named u followed by a colon |
| LocalLimiter.ResetMetricsKeepsWindows | rate_limiter.py:220-224 | after reset_metrics every request count is as before and the metrics read zero |
| MultiTier.NewMultiTier | rate_limiter.py:246-276 | absent limits default to 100 per 3600 and 10000 per 3600 and an absent tier table to none; the configurations are kept as given; every limiter starts empty; one tier limiter exists per configured tier |
| MultiTier.ModelTier | rate_limiter.py:278-293 | a model in the table gets its tier from the table; any other model gets standard; the result is always one of high, medium, low or standard |
| MultiTier.ModelTierExamples | test_rate_limiter.py:337-340 | gpt-4 is high, gpt-3.5-turbo medium, llama-7b low, and a model outside the table standard |
| MultiTier.TierModel | rate_limiter.py:314-316 | the tier limiter records under the model name "tier-" followed by the tier |
| MultiTier.Allow | rate_limiter.py:295-319 | admits iff the user-model limiter, the global limiter, and the tier limiter when the tier is configured all admit; admission reads "Allowed"; the tier set and configurations are unchanged |
| MultiTier.UserDenialShortCircuits | rate_limiter.py:303-305 | a user-model denial leaves the global and tier limiters untouched, and its reason contains the user id |
| MultiTier.GlobalDenialKeepsUserRecord | rate_limiter.py:307-309 | a global denial keeps the user-model record of now (no rollback), leaves the tier limiters untouched, and its reason starts with "Global" |
| MultiTier.TierDenialKeepsEarlierRecords | rate_limiter.py:311-317 | a tier denial keeps the records of the user-model and global limiters, records the purge of that tier's limiter while every other tier limiter is unchanged, and its reason names the tier |
| MultiTier.UnconfiguredTierUntouched | rate_limiter.py:311-317 | when the model's tier is not configured, no tier limiter changes |
| MultiTier.NewMultiTierValid | rate_limiter.py:265-276 | a new combinator satisfies the window invariant in every limiter |
| MultiTier.AllowKeepsValid | rate_limiter.py:295-319 | with non-decreasing clocks, every limiter's windows stay sorted and within that limiter's max_requests |
| MultiTier.AdmittedIsRecordedEverywhere | rate_limiter.py:303-319 | an admitted request leaves the user-model, global and (when configured) tier limiters exactly as their own allow calls left them, with now last in each of those windows; no other tier limiter changes |
| RedisScript.ZRemRangeByScore | distributed_rate_limiter.py:31-33 | exactly the members scored strictly above the bound survive, with unchanged scores |
| RedisScript.ZAdd | distributed_rate_limiter.py:41-43 | the member gets the score, no other member changes, and the cardinality grows only when the member is new |
| RedisScript.ZCard | distributed_rate_limiter.py:35-37 | the cardinality is the number of members and is zero exactly for the empty set |
| RedisScript.ZCount | distributed_rate_limiter.py:182-184 | counts exactly the members scored within the inclusive range, so never more than the cardinality |
| RedisScript.RateLimit | distributed_rate_limiter.py:28-54 | replies 0 or 1; replies 1 iff fewer than max_requests members are scored above now minus the window; on 1 the request id maps to now and every other survivor keeps its score; on 0 the purged set is returned; max at most 0 always gives 0; a cardinality within the cap stays within it; a request id already present never raises the cardinality |
| RedisScript.ReplayNeverDoubleCounts | distributed_rate_limiter.py:123-125 | a second call with the same request id adds no member beyond the first, and a denied call is replayed identically |
| RedisScript.ReplayRefreshesScore | distributed_rate_limiter.py:43 | an admitted replay of a member still in the window keeps the set of members and only refreshes its score |
| RedisScript.ReplayAtCapacityIsDenied | distributed_rate_limiter.py:37-53 | at capacity, a replay of an admitted request is answered 0 |
| RedisScript.BoundaryMemberDropped | distributed_rate_limiter.py:29-33 | a member scored exactly at the window start is removed |
| RedisLimiter.RedisKey | distributed_rate_limiter.py:139 | the key is "ratelimit:" followed by the local user:model key |
| RedisLimiter.Put | distributed_rate_limiter.py:33 | writing an empty sorted set deletes the key, and no other key changes |
| RedisLimiter.Allow | distributed_rate_limiter.py:136-151 | admits iff fewer than max_requests members of the user's set are scored above now minus the window; on admission the request id is recorded at now; survivors keep their scores; other keys are unchanged; no empty set is stored; a cap on every set is kept |
| RedisLimiter.GetRequestCount | distributed_rate_limiter.py:164-185 | counts the members scored within now minus the window to now, both ends inclusive; a missing key gives 0; the count never exceeds the set's size |
| RedisLimiter.ResetUserModel | distributed_rate_limiter.py:199-201 | deletes exactly the one key and reports 1 if it existed, else 0 |
| RedisLimiter.ResetUserAll | distributed_rate_limiter.py:202-208 | deletes exactly the user's keys and reports how many were deleted |
| RedisLimiter.ResetUser | distributed_rate_limiter.py:187-208 | a non-empty model deletes one key; an absent or empty model deletes every key of the user; other sets are unchanged; it returns the number of keys deleted |
| RedisLimiter.CountVersusScript | distributed_rate_limiter.py:178-185 | with no future scores, the count is the number of members the script keeps plus those exactly at the window start |
| RedisLimiter.CountPredictsAllow | distributed_rate_limiter.py:184 | with no member on the window start or in the future, the script admits iff the count is below max_requests |
| RedisLimiter.ResetModelThenAdmit | distributed_rate_limiter.py:199-201 | after reset_user(user, model) the next request for that pair is admitted when max_requests is positive, for any model id including the empty one, which resets every key of the user |
| Boundary.LogOf | distributed_rate_limiter.py:43 | the sorted set built from a request log has exactly the log's request ids as members |
| Boundary.PurgeVersusScript | distributed_rate_limiter.py:29-37 | for one request log held both ways, the local purge keeps the script's survivors plus the requests exactly at the window start |
| Boundary.SameCountAwayFromBoundary | distributed_rate_limiter.py:33 | with no request on the window start, both purges keep the same number of requests |
| Boundary.SameCountSameDecision | distributed_rate_limiter.py:40 | equal post-purge counts give equal local and remote decisions |
| Boundary.SameDecisionAwayFromBoundary | distributed_rate_limiter.py:28-54 | with no request on the window start, local allow admits iff the script replies 1 |
| Boundary.KeptLocallyDroppedRemotely | distributed_rate_limiter.py:33 | one timestamp is kept locally iff at or after the window start, and remotely iff after it; the two disagree exactly at the window start |
| Boundary.BoundaryDecisionsDiffer | distributed_rate_limiter.py:29-33 | with max 1 and window 10, a request at 0 blocks one at 10 locally, while the script admits both |

## Left out

- Locks (`threading.Lock`, the per-key lock map, the dictionary and metrics locks): each operation is modelled as one atomic sequential step. The code does not deliver that atomicity in every case: its lock-order inversion and the unlocked reads in `get_metrics` are not modelled.
- Wall-clock time: `time.time()` is replaced by the caller's integer `now`. Fractional windows and timestamps are not modelled.
- MultiTier.Allow: one `now` is used for all tiers, whereas the code reads the clock again inside each limiter's `allow`.
- The floating-point `deny_rate_percent` of `get_metrics` is not modelled.
- The `window_seconds` field of `SlidingWindowEntry` is never read by the code and is not modelled. `_get_or_create_window` is folded into `LocalLimiter.Allow`.
- Redis client plumbing is left out, because these are foreign library and network calls: `script_load`, `evalsha`, the `NoScriptError` reload and retry, and `RedisError` propagation. The model follows the intended `evalsha` call rather than the keyword-argument form as written (see above).
- The script's `EXPIRE` and key expiry are left out: there is no time-driven deletion in the model. This includes the immediate case. When `window_seconds <= -60` the TTL `window_seconds + 60` is not positive (distributed_rate_limiter.py:47), so Redis deletes the key at once and an admitted request is not recorded at all. The model keeps the record.
- UUID generation for a missing request id is left out. The request id is a parameter.
- The default arguments of `RedisRateLimiter.allow` and `get_request_count`, of `RateLimiter.__init__` (100 requests per 3600 seconds, rate_limiter.py:69) and of `RateLimitConfig` (the same values, rate_limiter.py:12-13) are left out. Every argument is explicit. The defaults are used only where `MultiTierRateLimiter` fills in an absent configuration, which `MultiTier.NewMultiTier` models.
- RedisLimiter.ResetUserAll: the `KEYS ratelimit:<user>:*` glob is read as a literal prefix. A user id containing glob metacharacters (`*`, `?`, `[`, `\`) would select other keys in Redis.
- The triple-quoted design notes of `distributed_rate_limiter.py` contain no executable code, so there is nothing to compare a model against. This covers Redis server time, the `ZSCORE` duplicate check, the fail-open fallback, the consistent-hash ring, the failover state machine and clock-skew tolerance.
- `examples.py` (web handlers, demos and a floating-point token bucket) is not part of this model.
