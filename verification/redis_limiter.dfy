/**
  The Redis-backed limiter as a host for the script: the key layout, the
  script applied to one key of the store, the read-only count and the reset.
  The store maps each key to its sorted set; as in Redis, a key whose sorted
  set becomes empty no longer exists.
 */
module RedisLimiter {
  import opened Wrappers
  import opened RedisScript
  import LocalLimiter

  type Store = map<string, ZSet>

  const KeyPrefix := "ratelimit:"

  /** The key of a user and model: the local key behind the "ratelimit:" prefix. */
  function RedisKey(user: string, model: string): (k: string)
    ensures k == KeyPrefix + LocalLimiter.Key(user, model)
    ensures |k| == |KeyPrefix| + |user| + 1 + |model|
  {
    "ratelimit:" + user + ":" + model
  }

  /** The sorted set under `key`; a missing key reads as the empty set. */
  function Lookup(s: Store, key: string): ZSet {
    if key in s then s[key] else map[]
  }

  /** Writes a sorted set back; an empty set deletes the key. */
  function Put(s: Store, key: string, z: ZSet): (r: Store)
    ensures Lookup(r, key) == z
    ensures key in r <==> |z| > 0
    ensures forall k :: k != key ==> (k in r <==> k in s) && Lookup(r, k) == Lookup(s, k)
  {
    if |z| == 0 then s - {key} else s[key := z]
  }

  predicate NoEmptySets(s: Store) {
    forall k :: k in s ==> |s[k]| > 0
  }

  /**
    `allow`: runs the script on the user's key with the caller's `now`,
    window, maximum and request id, and returns whether it replied 1.
   */
  function Allow(s: Store, user: string, model: string, maxRequests: int, windowSeconds: int,
                 now: int, requestId: string): (r: (bool, Store))
    ensures var key := RedisKey(user, model);
            var z := Lookup(s, key);
            && (r.0 <==> |Above(z, now - windowSeconds)| < maxRequests)
            && (r.0 ==> requestId in Lookup(r.1, key) && Lookup(r.1, key)[requestId] == now)
            && (forall m :: (m != requestId || !r.0) ==>
                  (m in Lookup(r.1, key) <==> m in z && z[m] > now - windowSeconds)
                  && (m in Lookup(r.1, key) ==> Lookup(r.1, key)[m] == z[m]))
            && (forall k :: k != key ==> (k in r.1 <==> k in s) && Lookup(r.1, k) == Lookup(s, k))
    ensures NoEmptySets(s) ==> NoEmptySets(r.1)
    ensures (forall k :: k in s ==> |s[k]| <= maxRequests) ==> (forall k :: k in r.1 ==> |r.1[k]| <= maxRequests)
  {
    var key := RedisKey(user, model);
    var result := RateLimit(Lookup(s, key), now, windowSeconds, maxRequests, requestId);
    (result.0 == 1, Put(s, key, result.1))
  }

  /**
    `get_request_count`: counts the members scored within
    `[now - windowSeconds, now]`, both ends inclusive, without cleaning the set.
   */
  function GetRequestCount(s: Store, user: string, model: string, windowSeconds: int, now: int): (n: nat)
    ensures RedisKey(user, model) !in s ==> n == 0
    ensures n <= |Lookup(s, RedisKey(user, model))|
    ensures n == |Within(Lookup(s, RedisKey(user, model)), now - windowSeconds, now)|
  {
    ZCount(Lookup(s, RedisKey(user, model)), now - windowSeconds, now)
  }

  /** The keys the pattern `ratelimit:<user>:*` selects, read as a literal prefix. */
  predicate UserKey(k: string, user: string) {
    LocalLimiter.HasPrefix(k, KeyPrefix + user + ":")
  }

  /** `reset_user(user, model)`: deletes exactly that model's key, reporting whether it existed. */
  function ResetUserModel(s: Store, user: string, model: string): (r: (nat, Store))
    ensures r.1.Keys == s.Keys - {RedisKey(user, model)}
    ensures forall k :: k in r.1 ==> r.1[k] == s[k]
    ensures r.0 == (if RedisKey(user, model) in s then 1 else 0)
    ensures r.0 == |s| - |r.1|
  {
    var key := RedisKey(user, model);
    var r := s - {key};
    assert key in s ==> s.Keys == r.Keys + {key};
    assert key !in s ==> s.Keys == r.Keys;
    (if key in s then 1 else 0, r)
  }

  /** `reset_user(user)`: deletes every key of the user and reports how many there were. */
  function ResetUserAll(s: Store, user: string): (r: (nat, Store))
    ensures forall k :: k in r.1 <==> k in s && !UserKey(k, user)
    ensures forall k :: k in r.1 ==> r.1[k] == s[k]
    ensures r.0 == |s| - |r.1|
  {
    var r := map k | k in s && !UserKey(k, user) :: s[k];
    SubsetCard(r.Keys, s.Keys);
    (|s| - |r|, r)
  }

  /** `reset_user(user, model_id)`: as in the local limiter, an absent or empty model resets every model. */
  function ResetUser(s: Store, user: string, model: Option<string>): (r: (nat, Store))
    ensures model.Some? && model.value != "" ==> r.1.Keys == s.Keys - {RedisKey(user, model.value)}
    ensures (model == None || model == Some("")) ==> forall k :: k in r.1 <==> k in s && !UserKey(k, user)
    ensures forall k :: k in r.1 ==> k in s && r.1[k] == s[k]
    ensures r.0 == |s| - |r.1|
  {
    if model.Some? && model.value != "" then ResetUserModel(s, user, model.value)
    else ResetUserAll(s, user)
  }

  /** The members that `get_request_count` sees but the script's purge drops: those exactly at the window start. */
  ghost function AtStart(z: ZSet, windowStart: int): set<string> {
    set m | m in z && z[m] == windowStart
  }

  /**
    With no member scored in the future, the count reports the members the
    script keeps plus those exactly at the window start, which the script drops.
   */
  lemma CountVersusScript(s: Store, user: string, model: string, windowSeconds: int, now: int)
    requires windowSeconds >= 0
    requires var z := Lookup(s, RedisKey(user, model)); forall m :: m in z ==> z[m] <= now
    ensures var z := Lookup(s, RedisKey(user, model));
            var ws := now - windowSeconds;
            GetRequestCount(s, user, model, windowSeconds, now) == |Above(z, ws)| + |AtStart(z, ws)|
  {
    var z := Lookup(s, RedisKey(user, model));
    var ws := now - windowSeconds;
    var counted := Within(z, ws, now);
    assert counted == Above(z, ws) + AtStart(z, ws);
    assert Above(z, ws) * AtStart(z, ws) == {};
  }

  /** Away from the boundary the count predicts the script: it admits iff the count is below the maximum. */
  lemma CountPredictsAllow(s: Store, user: string, model: string, maxRequests: int, windowSeconds: int,
                           now: int, requestId: string)
    requires windowSeconds >= 0
    requires var z := Lookup(s, RedisKey(user, model));
             forall m :: m in z ==> now - windowSeconds != z[m] <= now
    ensures Allow(s, user, model, maxRequests, windowSeconds, now, requestId).0
        <==> GetRequestCount(s, user, model, windowSeconds, now) < maxRequests
  {
    CountVersusScript(s, user, model, windowSeconds, now);
    assert AtStart(Lookup(s, RedisKey(user, model)), now - windowSeconds) == {};
  }

  /** Deleting a key and then asking again finds room whenever the maximum is positive. */
  lemma ResetModelThenAdmit(s: Store, user: string, model: string, maxRequests: int, windowSeconds: int,
                            now: int, requestId: string)
    requires maxRequests > 0
    ensures Allow(ResetUser(s, user, Some(model)).1, user, model, maxRequests, windowSeconds, now, requestId).0
  {
  }
}
