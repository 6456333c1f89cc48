/**
 Sliding-window limiters: at most `maxCount` allowed calls per window, kept as
 a pruned list of timestamps.
 */
module RateLimiter {
  import opened Sequences

  predicate NonDecreasing(ts: seq<int>) {
    forall i, j :: 0 <= i < j < |ts| ==> ts[i] <= ts[j]
  }

  /** The calls less than one window ago, in order. */
  function InWindow(ts: seq<int>, now: int, window: nat): seq<int> {
    if ts == [] then []
    else (if now - ts[0] < window then [ts[0]] else []) + InWindow(ts[1..], now, window)
  }

  /** The calls, by place in the history, that are less than one window old. */
  ghost function Recent(ts: seq<int>, now: int, window: nat): set<nat> {
    set i: nat | i < |ts| && now - ts[i] < window
  }

  lemma {:induction false} RecentCounted(ts: seq<int>, now: int, window: nat)
    ensures |InWindow(ts, now, window)| == |Recent(ts, now, window)|
  {
    if ts == [] {
      assert Recent(ts, now, window) == {};
    } else {
      var n := |ts| - 1;
      var init := ts[..n];
      RecentCounted(init, now, window);
      InWindowAppend(init, [ts[n]], now, window);
      assert ts == init + [ts[n]] && [ts[n]][1..] == [];
      hide InWindow;
      RecentStep(init, ts[n], now, window);
      OneInWindow(ts[n], now, window);
      assert n !in Recent(init, now, window);
    }
  }

  lemma RecentStep(ts: seq<int>, t: int, now: int, window: nat)
    ensures Recent(ts + [t], now, window) == Recent(ts, now, window) + if now - t < window then {|ts|} else {}
  {
    assert forall i :: 0 <= i < |ts| ==> (ts + [t])[i] == ts[i];
  }

  lemma OneInWindow(t: int, now: int, window: nat)
    ensures InWindow([t], now, window) == if now - t < window then [t] else []
  {
    assert [t][1..] == [];
  }

  lemma {:induction false} InWindowAppend(a: seq<int>, b: seq<int>, now: int, window: nat)
    ensures InWindow(a + b, now, window) == InWindow(a, now, window) + InWindow(b, now, window)
  {
    if a == [] {
      assert a + b == b;
    } else {
      InWindowAppend(a[1..], b, now, window);
      TailOfConcat(a, b);
      ConcatAssociative(if now - a[0] < window then [a[0]] else [],
                        InWindow(a[1..], now, window), InWindow(b, now, window));
    }
  }

  /** Pruning at one time and again later is pruning at the later time. */
  lemma {:induction false} PruneTwice(ts: seq<int>, now: int, later: int, window: nat)
    requires now <= later
    ensures InWindow(InWindow(ts, now, window), later, window) == InWindow(ts, later, window)
  {
    if ts != [] {
      PruneTwice(ts[1..], now, later, window);
      InWindowAppend(if now - ts[0] < window then [ts[0]] else [], InWindow(ts[1..], now, window), later, window);
      assert [ts[0]][1..] == [];
    }
  }

  /** The calls from place `k` on are those in the window. */
  ghost predicate WindowStarts(ts: seq<int>, now: int, window: nat, k: nat) {
    && k <= |ts| && InWindow(ts, now, window) == ts[k..]
    && (forall i :: 0 <= i < k ==> now - ts[i] >= window)
    && (forall i :: k <= i < |ts| ==> now - ts[i] < window)
  }

  lemma {:induction false} AllInWindow(ts: seq<int>, now: int, window: nat)
    requires forall i :: 0 <= i < |ts| ==> now - ts[i] < window
    ensures InWindow(ts, now, window) == ts
  {
    if ts != [] {
      AllInWindow(ts[1..], now, window);
      assert ts == [ts[0]] + ts[1..];
    }
  }

  lemma NoneInFront(ts: seq<int>, now: int, window: nat, k: nat)
    requires ts != [] && now - ts[0] >= window && WindowStarts(ts[1..], now, window, k)
    ensures WindowStarts(ts, now, window, k + 1)
  {
    var rest := ts[1..];
    assert InWindow(ts, now, window) == [] + rest[k..] == ts[k + 1..];
    hide InWindow;
    assert forall i :: 1 <= i < |ts| ==> ts[i] == rest[i - 1];
  }

  /** On a non-decreasing list the calls in the window are a suffix. */
  lemma {:induction false} InWindowIsSuffix(ts: seq<int>, now: int, window: nat) returns (k: nat)
    requires NonDecreasing(ts)
    ensures WindowStarts(ts, now, window, k)
  {
    if ts == [] || now - ts[0] < window {
      k := 0;
      assert ts != [] ==> forall i :: 0 <= i < |ts| ==> ts[0] <= ts[i];
      AllInWindow(ts, now, window);
    } else {
      k := InWindowIsSuffix(ts[1..], now, window);
      NoneInFront(ts, now, window, k);
      k := k + 1;
    }
  }

  class RateLimiter {
    var timestamps: seq<int>
    const maxCount: nat
    const window: nat
    /** All allowed calls so far, never pruned. */
    ghost var history: seq<int>
    ghost var clock: int

    constructor (maxCount: nat, window: nat, start: int)
      ensures Valid() && history == [] && clock == start
      ensures this.maxCount == maxCount && this.window == window
    {
      this.maxCount := maxCount;
      this.window := window;
      timestamps := [];
      history := [];
      clock := start;
    }

    /** The dashboard's limit on configuration writes. */
    constructor ForConfigWrites(start: int)
      ensures Valid() && history == [] && clock == start && maxCount == 30 && window == 60
    {
      maxCount := 30;
      window := 60;
      timestamps := [];
      history := [];
      clock := start;
    }

    /** The limit on push notifications. */
    constructor ForNotifications(start: int)
      ensures Valid() && history == [] && clock == start && maxCount == 5 && window == 300
    {
      maxCount := 5;
      window := 300;
      timestamps := [];
      history := [];
      clock := start;
    }

    /** The list is the history restricted to the window, and calls are spread out. */
    ghost predicate Valid()
      reads this
    {
      && NonDecreasing(history)
      && AllUpTo(history, clock) && AllUpTo(timestamps, clock)
      && (window > 0 ==> timestamps == InWindow(history, clock, window))
      && Spread(history, maxCount, window)
    }

    /** `retain`, then refuse or record. */
    method CheckAndRecord(now: int) returns (allowed: bool)
      requires Valid() && clock <= now
      modifies this
      ensures Valid() && clock == now
      ensures allowed <==> |Recent(old(history), now, window)| < maxCount
      ensures history == if allowed then old(history) + [now] else old(history)
    {
      hide InWindow, Spread;
      RecentCounted(history, now, window);
      if window > 0 {
        PruneTwice(history, clock, now, window);
      } else {
        NoWindowIsEmpty(history, now);
        NoWindowIsEmpty(timestamps, now);
      }
      timestamps := Retain(timestamps, now, window);
      clock := now;
      InWindowUpTo(history, now, window);
      if |timestamps| >= maxCount {
        return false;
      }
      SpreadGrows(history, now, maxCount, window);
      InWindowAppend(history, [now], now, window);
      NowInWindow(now, window);
      timestamps := timestamps + [now];
      history := history + [now];
      return true;
    }
  }

  /** `Vec::retain` with the window test. */
  method Retain(ts: seq<int>, now: int, window: nat) returns (kept: seq<int>)
    ensures kept == InWindow(ts, now, window)
  {
    kept := [];
    for i := 0 to |ts|
      invariant kept == InWindow(ts[..i], now, window)
    {
      assert ts[..i + 1] == ts[..i] + [ts[i]];
      InWindowAppend(ts[..i], [ts[i]], now, window);
      assert [ts[i]][1..] == [];
      if now - ts[i] < window {
        kept := kept + [ts[i]];
      }
    }
    assert ts[..|ts|] == ts;
  }

  predicate AllUpTo(ts: seq<int>, now: int) {
    forall i :: 0 <= i < |ts| ==> ts[i] <= now
  }

  lemma NowInWindow(now: int, window: nat)
    ensures InWindow([now], now, window) == if window > 0 then [now] else []
  {
    assert [now][1..] == [];
  }

  lemma {:induction false} NoWindowIsEmpty(ts: seq<int>, now: int)
    requires AllUpTo(ts, now)
    ensures InWindow(ts, now, 0) == []
  {
    if ts != [] {
      NoWindowIsEmpty(ts[1..], now);
    }
  }

  lemma {:induction false} InWindowUpTo(ts: seq<int>, now: int, window: nat)
    requires AllUpTo(ts, now)
    ensures AllUpTo(InWindow(ts, now, window), now)
  {
    if ts != [] {
      InWindowUpTo(ts[1..], now, window);
    }
  }

  /** Allowed calls `maxCount` places apart are at least one window apart in time. */
  ghost predicate Spread(ts: seq<int>, maxCount: nat, window: nat) {
    forall i :: 0 <= i < |ts| - maxCount ==> ts[i + maxCount] - ts[i] >= window
  }

  lemma {:induction false} SpreadGrows(ts: seq<int>, now: int, maxCount: nat, window: nat)
    requires NonDecreasing(ts) && Spread(ts, maxCount, window)
    requires |InWindow(ts, now, window)| < maxCount
    ensures Spread(ts + [now], maxCount, window)
  {
    var k := InWindowIsSuffix(ts, now, window);
    forall i | 0 <= i < |ts| + 1 - maxCount
      ensures (ts + [now])[i + maxCount] - (ts + [now])[i] >= window
    {
    }
  }

  /** No window holds more than `maxCount` allowed calls, wherever it starts. */
  lemma {:induction false} AtMostMaxPerWindow(ts: seq<int>, maxCount: nat, window: nat, i: nat, j: nat)
    requires Spread(ts, maxCount, window) && NonDecreasing(ts)
    requires i <= j < |ts| && ts[j] - ts[i] < window
    ensures j - i + 1 <= maxCount
  {
    var m := if i + maxCount <= j then i + maxCount else j;
    assert ts[m] <= ts[j];
  }
}
