/**
  How the local limiter and the Redis script relate. The local purge keeps a
  timestamp equal to the window start; the script's purge drops it. Away from
  that single instant the two keep the same requests and decide alike.
 */
module Boundary {
  import opened SlidingWindow
  import opened RedisScript
  import LocalLimiter

  predicate Distinct(ids: seq<string>) {
    forall i, j :: 0 <= i < j < |ids| ==> ids[i] != ids[j]
  }

  /** The sorted set recording request `ids[i]` at time `ts[i]`. */
  function LogOf(ids: seq<string>, ts: seq<int>): (z: ZSet)
    requires |ids| == |ts|
    ensures forall m :: m in z <==> m in ids
    decreases |ids|
  {
    if |ids| == 0 then map[]
    else LogOf(ids[1..], ts[1..])[ids[0] := ts[0]]
  }

  /** How many timestamps of `s` equal `t`. */
  function CountAt(s: seq<int>, t: int): (n: nat)
    ensures n <= |s|
  {
    if |s| == 0 then 0 else (if s[0] == t then 1 else 0) + CountAt(s[1..], t)
  }

  /**
    For the same requests held both ways, the local purge keeps exactly the
    script's survivors plus the requests sitting on the window start.
   */
  lemma {:induction false} PurgeVersusScript(ids: seq<string>, ts: seq<int>, windowStart: int)
    requires |ids| == |ts| && Distinct(ids)
    ensures |Purge(ts, windowStart)| == |Above(LogOf(ids, ts), windowStart)| + CountAt(ts, windowStart)
    decreases |ids|
  {
    if |ids| > 0 {
      var rest := LogOf(ids[1..], ts[1..]);
      assert Distinct(ids[1..]);
      PurgeVersusScript(ids[1..], ts[1..], windowStart);
      assert ids[0] !in ids[1..];
      assert ids[0] !in rest;
      var z := LogOf(ids, ts);
      if ts[0] > windowStart {
        assert Above(z, windowStart) == Above(rest, windowStart) + {ids[0]};
      } else {
        assert Above(z, windowStart) == Above(rest, windowStart);
      }
    }
  }

  /**
    When no request sits exactly on the window start, the local limiter and
    the script admit the same requests.
   */
  lemma SameDecisionAwayFromBoundary(l: LocalLimiter.Limiter, user: string, model: string, ids: seq<string>,
                                     now: int, requestId: string)
    requires var ts := LocalLimiter.Window(l, LocalLimiter.Key(user, model));
             && |ids| == |ts| && Distinct(ids)
             && forall i :: 0 <= i < |ts| ==> ts[i] != now - l.windowSeconds
    ensures var ts := LocalLimiter.Window(l, LocalLimiter.Key(user, model));
            var remote := RateLimit(LogOf(ids, ts), now, l.windowSeconds, l.maxRequests, requestId);
            LocalLimiter.Allow(l, user, model, now).0 <==> remote.0 == 1
  {
    var ts := LocalLimiter.Window(l, LocalLimiter.Key(user, model));
    SameCountAwayFromBoundary(ids, ts, now - l.windowSeconds);
    SameCountSameDecision(l, user, model, ids, ts, now, requestId);
  }

  /** With no timestamp on the window start, both purges keep the same number of requests. */
  lemma SameCountAwayFromBoundary(ids: seq<string>, ts: seq<int>, windowStart: int)
    requires |ids| == |ts| && Distinct(ids)
    requires forall i :: 0 <= i < |ts| ==> ts[i] != windowStart
    ensures |Purge(ts, windowStart)| == |Above(LogOf(ids, ts), windowStart)|
  {
    PurgeVersusScript(ids, ts, windowStart);
    NoneAt(ts, windowStart);
  }

  /** Equal counts after the purge mean equal decisions, since both compare the count with the maximum. */
  lemma SameCountSameDecision(l: LocalLimiter.Limiter, user: string, model: string, ids: seq<string>,
                              ts: seq<int>, now: int, requestId: string)
    requires ts == LocalLimiter.Window(l, LocalLimiter.Key(user, model)) && |ids| == |ts|
    requires |Purge(ts, now - l.windowSeconds)| == |Above(LogOf(ids, ts), now - l.windowSeconds)|
    ensures LocalLimiter.Allow(l, user, model, now).0
        <==> RateLimit(LogOf(ids, ts), now, l.windowSeconds, l.maxRequests, requestId).0 == 1
  {
  }

  lemma {:induction false} NoneAt(s: seq<int>, t: int)
    requires forall i :: 0 <= i < |s| ==> s[i] != t
    ensures CountAt(s, t) == 0
  {
    if |s| > 0 {
      NoneAt(s[1..], t);
    }
  }

  /** One timestamp, held both ways: the local purge keeps it iff it is at or after the window start, the script iff after. */
  lemma KeptLocallyDroppedRemotely(t: int, windowStart: int, id: string)
    ensures t in Purge([t], windowStart) <==> t >= windowStart
    ensures id in ZRemRangeByScore(map[id := t], windowStart) <==> t > windowStart
    ensures (t in Purge([t], windowStart)) != (id in ZRemRangeByScore(map[id := t], windowStart)) <==> t == windowStart
  {
  }

  /**
    With a maximum of one and a ten-tick window, a request at tick 0 blocks a
    request at tick 10 locally, while the script lets it through.
   */
  lemma BoundaryDecisionsDiffer()
    ensures var l0 := LocalLimiter.NewLimiter(1, 10);
            var first := LocalLimiter.Allow(l0, "u", "m", 0);
            var second := LocalLimiter.Allow(first.1, "u", "m", 10);
            first.0 && !second.0
    ensures var r1 := RateLimit(map[], 0, 10, 1, "a");
            var r2 := RateLimit(r1.1, 10, 10, 1, "b");
            r1.0 == 1 && r2.0 == 1
  {
  }
}
