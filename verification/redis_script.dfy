/**
  The server-side rate-limit script, run atomically on one Redis sorted set.
  A sorted set is seen as a map from member (the request id) to score (the
  request timestamp); the sorted-set commands the script issues are modelled
  with the semantics Redis documents for them.
 */
module RedisScript {

  type ZSet = map<string, int>

  /** The members whose score is strictly above `bound`: what `ZREMRANGEBYSCORE -inf bound` leaves. */
  ghost function Above(z: ZSet, bound: int): set<string> {
    set m | m in z && z[m] > bound
  }

  /** `ZREMRANGEBYSCORE key -inf max`: removes every member scored at most `max` (the bound is inclusive). */
  function ZRemRangeByScore(z: ZSet, max: int): (r: ZSet)
    ensures forall m :: m in r <==> m in z && z[m] > max
    ensures forall m :: m in r ==> r[m] == z[m]
    ensures |r| <= |z|
  {
    var r := map m | m in z && z[m] > max :: z[m];
    assert r.Keys <= z.Keys;
    SubsetCard(r.Keys, z.Keys);
    r
  }

  lemma SubsetCard<T>(a: set<T>, b: set<T>)
    requires a <= b
    ensures |a| <= |b|
  {
    assert b == a + (b - a);
  }

  /** The members scored within `[lo, hi]`. */
  ghost function Within(z: ZSet, lo: int, hi: int): set<string> {
    set m | m in z && lo <= z[m] && z[m] <= hi
  }

  /** `ZCARD`: the number of members; zero exactly for the empty set. */
  function ZCard(z: ZSet): (n: nat)
    ensures n == |z.Keys|
    ensures n == 0 <==> z == map[]
  {
    |z|
  }

  /** `ZADD key score member`: adds the member, or only updates its score when it is already present. */
  function ZAdd(z: ZSet, score: int, member: string): (r: ZSet)
    ensures member in r && r[member] == score
    ensures forall m :: m != member ==> (m in r <==> m in z) && (m in z ==> r[m] == z[m])
    ensures member in z ==> |r| == |z|
    ensures member !in z ==> |r| == |z| + 1
  {
    UpdateCard(z, score, member);
    z[member := score]
  }

  lemma UpdateCard(z: ZSet, score: int, member: string)
    ensures member in z ==> |z[member := score]| == |z|
    ensures member !in z ==> |z[member := score]| == |z| + 1
  {
  }

  /** `ZCOUNT key min max`: the number of members scored within `[lo, hi]`, both ends inclusive. */
  function ZCount(z: ZSet, lo: int, hi: int): (n: nat)
    ensures n == |Within(z, lo, hi)|
    ensures n <= |z|
  {
    var s := set m | m in z && lo <= z[m] && z[m] <= hi;
    SubsetCard(s, z.Keys);
    |s|
  }

  /**
    The script: drop every member scored at or before `now - windowSeconds`,
    count what is left, and admit (reply 1, recording `requestId` at `now`)
    iff that count is below `maxRequests`; otherwise reply 0 and leave the
    purged set as it is. The key's expiry is not modelled.
   */
  function RateLimit(z: ZSet, now: int, windowSeconds: int, maxRequests: int, requestId: string): (r: (int, ZSet))
    ensures var windowStart := now - windowSeconds;
            && (r.0 == 1 || r.0 == 0)
            && (r.0 == 1 <==> |Above(z, windowStart)| < maxRequests)
            && (r.0 == 1 ==> requestId in r.1 && r.1[requestId] == now)
            && (forall m :: (m != requestId || r.0 == 0) ==>
                  (m in r.1 <==> m in z && z[m] > windowStart) && (m in r.1 ==> r.1[m] == z[m]))
    ensures maxRequests <= 0 ==> r.0 == 0
    ensures r.0 == 1 ==> |r.1| <= maxRequests
    ensures |z| <= maxRequests ==> |r.1| <= maxRequests
    ensures requestId in z ==> |r.1| <= |z|
  {
    var windowStart := now - windowSeconds;
    var live := ZRemRangeByScore(z, windowStart);
    assert live.Keys == Above(z, windowStart);
    if ZCard(live) < maxRequests then
      PurgedReplayCard(z, live, requestId);
      (1, ZAdd(live, now, requestId))
    else
      (0, live)
  }

  /** A member of `z` missing from its sub-map `live` leaves room for it in the count. */
  lemma PurgedReplayCard(z: ZSet, live: ZSet, requestId: string)
    requires live.Keys <= z.Keys
    ensures requestId in z && requestId !in live ==> |live| < |z|
  {
    if requestId in z && requestId !in live {
      assert live.Keys + {requestId} <= z.Keys;
      SubsetCard(live.Keys + {requestId}, z.Keys);
    }
  }

  /**
    Replaying a request id never double-counts: the second call adds no member
    beyond those of the first, and a denied first call is replayed identically.
   */
  lemma ReplayNeverDoubleCounts(z: ZSet, now: int, windowSeconds: int, maxRequests: int, requestId: string)
    ensures var first := RateLimit(z, now, windowSeconds, maxRequests, requestId);
            var second := RateLimit(first.1, now, windowSeconds, maxRequests, requestId);
            && |second.1| <= |first.1|
            && (first.0 == 0 ==> second == first)
  {
    var ws := now - windowSeconds;
    var first := RateLimit(z, now, windowSeconds, maxRequests, requestId);
    if first.0 == 0 {
      assert Above(first.1, ws) == first.1.Keys;
      assert first.1.Keys == Above(z, ws);
      assert ZRemRangeByScore(first.1, ws) == first.1;
    }
  }

  /** A replay of a member still inside the window only refreshes its score. */
  lemma ReplayRefreshesScore(z: ZSet, now: int, windowSeconds: int, maxRequests: int, requestId: string)
    requires requestId in z && z[requestId] > now - windowSeconds
    ensures var r := RateLimit(z, now, windowSeconds, maxRequests, requestId);
            r.0 == 1 ==> r.1.Keys == Above(z, now - windowSeconds) && |r.1| == |Above(z, now - windowSeconds)|
  {
  }

  /**
    The replay does not return the original decision: at capacity a retried
    admitted request is answered 0 although the first call answered 1.
   */
  lemma ReplayAtCapacityIsDenied()
    ensures var first := RateLimit(map[], 5, 10, 1, "req");
            var second := RateLimit(first.1, 5, 10, 1, "req");
            first.0 == 1 && second.0 == 0 && second.1 == first.1
  {
  }

  /** A member scored exactly at the window start is dropped: the purge bound is inclusive. */
  lemma BoundaryMemberDropped(z: ZSet, now: int, windowSeconds: int, maxRequests: int, requestId: string, m: string)
    requires m in z && z[m] == now - windowSeconds && m != requestId
    ensures m !in RateLimit(z, now, windowSeconds, maxRequests, requestId).1
  {
  }
}
