/**
  The per-key sliding-window log: a sequence of request timestamps.

  Timestamps are abstract integer ticks supplied by the caller; only `-`,
  `<` and `>=` are ever applied to them.
 */
module SlidingWindow {

  /** Every earlier timestamp is at most every later one. */
  predicate Sorted(s: seq<int>) {
    forall i, j :: 0 <= i < j < |s| ==> s[i] <= s[j]
  }

  /** No timestamp of `s` lies after `t`. */
  predicate AllAtMost(s: seq<int>, t: int) {
    forall i :: 0 <= i < |s| ==> s[i] <= t
  }

  /** No timestamp of `s` lies before `t`. */
  predicate AllAtLeast(s: seq<int>, t: int) {
    forall i :: 0 <= i < |s| ==> s[i] >= t
  }

  /** The timestamps of `s` that are at or after `windowStart`, in their original order. */
  function Purge(s: seq<int>, windowStart: int): (r: seq<int>)
    ensures |r| <= |s|
    ensures forall x :: x in r <==> x in s && x >= windowStart
  {
    if |s| == 0 then []
    else if s[0] >= windowStart then [s[0]] + Purge(s[1..], windowStart)
    else Purge(s[1..], windowStart)
  }

  /** How many timestamps of `s` lie strictly before `windowStart` (the expired ones). */
  function CountBelow(s: seq<int>, windowStart: int): (n: nat)
    ensures n <= |s|
  {
    if |s| == 0 then 0
    else (if s[0] < windowStart then 1 else 0) + CountBelow(s[1..], windowStart)
  }

  /** Recording a request keeps the earlier log as a prefix and puts the new timestamp last. */
  function AddRequest(s: seq<int>, timestamp: int): (r: seq<int>)
    ensures |r| == |s| + 1
    ensures forall i :: 0 <= i < |s| ==> r[i] == s[i]
    ensures r[|s|] == timestamp
  {
    s + [timestamp]
  }

  /**
    The count ignores `windowStart`: the caller is expected to have purged
    first, and on a purged log it is the number of requests in the window.
   */
  function CurrentCount(s: seq<int>, windowStart: int): (n: nat)
    ensures AllAtLeast(s, windowStart) ==> n == |s| - CountBelow(s, windowStart)
  {
    NoneBelow(s, windowStart);
    |s|
  }

  /** Whether no request is recorded: the count is zero whatever the window start. */
  function IsEmpty(s: seq<int>): (b: bool)
    ensures b <==> s == []
    ensures b <==> CurrentCount(s, 0) == 0
  {
    |s| == 0
  }

  /** A log with no timestamp before `windowStart` has nothing expired. */
  lemma {:induction false} NoneBelow(s: seq<int>, windowStart: int)
    ensures AllAtLeast(s, windowStart) ==> CountBelow(s, windowStart) == 0
  {
    if |s| > 0 {
      NoneBelow(s[1..], windowStart);
    }
  }

  /**
    The list comprehension of `clean_expired`, as a loop: keeps the timestamps
    at or after `windowStart` and reports how many it dropped.
   */
  method CleanExpired(timestamps: seq<int>, windowStart: int) returns (removed: nat, kept: seq<int>)
    ensures kept == Purge(timestamps, windowStart)
    ensures removed == CountBelow(timestamps, windowStart)
    ensures removed == |timestamps| - |kept|
  {
    kept := [];
    var i := 0;
    while i < |timestamps|
      invariant 0 <= i <= |timestamps|
      invariant kept == Purge(timestamps[..i], windowStart)
    {
      PurgeAppend(timestamps[..i], timestamps[i], windowStart);
      assert timestamps[..i + 1] == timestamps[..i] + [timestamps[i]];
      if timestamps[i] >= windowStart {
        kept := kept + [timestamps[i]];
      }
      i := i + 1;
    }
    assert timestamps[..i] == timestamps;
    PurgeCount(timestamps, windowStart);
    removed := |timestamps| - |kept|;
  }

  /** Purging a sequence extended at the end purges the prefix and keeps the new element iff it is recent. */
  lemma {:induction false} PurgeAppend(s: seq<int>, t: int, windowStart: int)
    ensures Purge(s + [t], windowStart) == Purge(s, windowStart) + (if t >= windowStart then [t] else [])
  {
    if |s| == 0 {
      assert s + [t] == [t];
      assert [t][1..] == [];
    } else {
      assert (s + [t])[0] == s[0];
      assert (s + [t])[1..] == s[1..] + [t];
      PurgeAppend(s[1..], t, windowStart);
    }
  }

  /** Kept plus expired is everything: the number `clean_expired` reports is the length lost. */
  lemma {:induction false} PurgeCount(s: seq<int>, windowStart: int)
    ensures |Purge(s, windowStart)| + CountBelow(s, windowStart) == |s|
  {
    if |s| > 0 {
      PurgeCount(s[1..], windowStart);
    }
  }

  /** Purging a window whose timestamps are all recent changes nothing. */
  lemma {:induction false} PurgeKeepsAll(s: seq<int>, windowStart: int)
    requires AllAtLeast(s, windowStart)
    ensures Purge(s, windowStart) == s
  {
    if |s| > 0 {
      PurgeKeepsAll(s[1..], windowStart);
      assert [s[0]] + s[1..] == s;
    }
  }

  /** On a sorted window the purge drops a prefix: what remains is a suffix, hence still sorted. */
  lemma {:induction false} PurgeSortedSuffix(s: seq<int>, windowStart: int)
    requires Sorted(s)
    ensures Purge(s, windowStart) == s[|s| - |Purge(s, windowStart)|..]
    ensures Sorted(Purge(s, windowStart))
  {
    if |s| > 0 {
      if s[0] >= windowStart {
        assert AllAtLeast(s, windowStart);
        PurgeKeepsAll(s, windowStart);
      } else {
        PurgeSortedSuffix(s[1..], windowStart);
        var k := |s[1..]| - |Purge(s[1..], windowStart)|;
        assert s[1..][k..] == s[k + 1..];
      }
    }
  }

  /** Purging twice at the same window start is the same as purging once. */
  lemma PurgeIdempotent(s: seq<int>, windowStart: int)
    ensures Purge(Purge(s, windowStart), windowStart) == Purge(s, windowStart)
  {
  }

  /** A later window start subsumes an earlier one. */
  lemma {:induction false} PurgeMonotone(s: seq<int>, early: int, late: int)
    requires early <= late
    ensures Purge(Purge(s, early), late) == Purge(s, late)
  {
    if |s| > 0 {
      PurgeMonotone(s[1..], early, late);
      if s[0] >= early {
        assert ([s[0]] + Purge(s[1..], early))[0] == s[0];
        assert ([s[0]] + Purge(s[1..], early))[1..] == Purge(s[1..], early);
      }
    }
  }

  /** Appending a timestamp no earlier than every recorded one keeps the window sorted. */
  lemma AddRequestKeepsOrder(s: seq<int>, timestamp: int)
    requires Sorted(s) && AllAtMost(s, timestamp)
    ensures Sorted(AddRequest(s, timestamp))
    ensures AllAtMost(AddRequest(s, timestamp), timestamp)
  {
  }

  /** After `clean_expired`, the current count is the number of timestamps at or after the window start. */
  lemma {:induction false} CountAfterClean(s: seq<int>, windowStart: int)
    ensures CurrentCount(Purge(s, windowStart), windowStart) == |s| - CountBelow(s, windowStart)
  {
    PurgeCount(s, windowStart);
  }

  /** After `clean_expired`, the entry is empty exactly when every timestamp had expired. */
  lemma EmptyAfterClean(s: seq<int>, windowStart: int)
    ensures IsEmpty(Purge(s, windowStart)) <==> forall i :: 0 <= i < |s| ==> s[i] < windowStart
  {
  }
}
