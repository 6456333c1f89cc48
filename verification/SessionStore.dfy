/**
 The dashboard's capped session map. Expired sessions linger until a lookup or
 a cleanup removes them; the laws say that this is never observable.
 */
module SessionStore {

  type Sessions = map<string, int>

  const MAX_SESSIONS := 100
  const SESSION_SECONDS := 86400

  /** The sessions that have not expired. */
  function Live(s: Sessions, now: int): Sessions {
    map id | id in s && now < s[id] :: s[id]
  }

  /** A session with the earliest expiry; with ties any of them may be taken. */
  ghost predicate EarliestExpiry(s: Sessions, id: string) {
    id in s && forall other :: other in s ==> s[id] <= s[other]
  }

  // ----------------------------------------------------------------- the store

  class SessionStore {
    var sessions: Sessions

    constructor ()
      ensures sessions == map[]
    {
      sessions := map[];
    }

    /** A login whose password was accepted at `issued`: makes room if full, then inserts. */
    method Login(id: string, issued: int)
      modifies this
      ensures StoreStep(old(sessions), LoginAt(id, issued + 86400), sessions)
    {
      var expiry := issued + SESSION_SECONDS;
      if |sessions| >= MAX_SESSIONS {
        SomeEarliest(sessions);
        var oldest :| oldest in sessions && forall other :: other in sessions ==> sessions[oldest] <= sessions[other];
        assert EarliestExpiry(sessions, oldest);
        sessions := sessions - {oldest};
      }
      sessions := sessions[id := expiry];
    }

    method IsValid(id: string, now: int) returns (valid: bool)
      modifies this
      ensures StoreStep(old(sessions), CheckAt(id, now), sessions)
      ensures valid <==> id in old(sessions) && now < old(sessions)[id]
      ensures valid <==> id in sessions
      ensures sessions - {id} == old(sessions) - {id}
    {
      if id in sessions {
        if now < sessions[id] {
          return true;
        }
        sessions := sessions - {id};
      }
      return false;
    }

    method CleanupExpired(now: int)
      modifies this
      ensures StoreStep(old(sessions), CleanupAt(now), sessions)
      ensures forall id :: id in sessions <==> id in old(sessions) && now < old(sessions)[id]
      ensures forall id :: id in sessions ==> sessions[id] == old(sessions)[id]
    {
      sessions := map id | id in sessions && sessions[id] > now :: sessions[id];
    }
  }

  /** A nonempty map has an entry with the least value. */
  lemma {:induction false} SomeEarliest(s: Sessions)
    requires s != map[]
    ensures exists id :: EarliestExpiry(s, id)
    decreases |s|
  {
    var id :| id in s;
    var rest := s - {id};
    if rest == map[] {
      assert s.Keys == rest.Keys + {id};
      assert EarliestExpiry(s, id);
    } else {
      assert rest.Keys == s.Keys - {id};
      SomeEarliest(rest);
      var e :| EarliestExpiry(rest, e);
      var least := if s[id] <= s[e] then id else e;
      forall other | other in s
        ensures s[least] <= s[other]
      {
        if other != id {
          assert other in rest;
        }
      }
      assert EarliestExpiry(s, least);
    }
  }

  // --------------------------------------------------------------- whole runs

  datatype Op = LoginAt(id: string, expiry: int) | CheckAt(id: string, now: int) | CleanupAt(now: int)

  /** Inserts after evicting an earliest-expiring session from a full map. */
  ghost predicate InsertStep(s: Sessions, id: string, expiry: int, s': Sessions) {
    if |s| >= 100 then
      exists oldest :: EarliestExpiry(s, oldest) && s' == (s - {oldest})[id := expiry]
    else s' == s[id := expiry]
  }

  /** One operation on the store as it is, expired sessions included. */
  ghost predicate StoreStep(s: Sessions, op: Op, s': Sessions) {
    match op
    case LoginAt(id, expiry) => InsertStep(s, id, expiry, s')
    case CheckAt(id, now) => s' == if id in s && s[id] <= now then s - {id} else s
    case CleanupAt(now) => s' == Live(s, now)
  }

  /** One operation on the simple model: live sessions only, forgotten when they expire. */
  ghost predicate ModelStep(m: Sessions, op: Op, now: int, m': Sessions) {
    match op
    case LoginAt(id, expiry) => exists s' :: InsertStep(Live(m, now), id, expiry, s') && m' == Live(s', now)
    case _ => m' == Live(m, now)
  }

  /** The operation happens at this time. */
  predicate At(op: Op, now: int) {
    op.LoginAt? || op.now == now
  }

  lemma {:induction false} LiveTwice(s: Sessions, t1: int, t2: int)
    requires t1 <= t2
    ensures Live(Live(s, t1), t2) == Live(s, t2)
  {
  }

  lemma {:induction false} LiveIsSmaller(s: Sessions, now: int)
    ensures |Live(s, now)| <= |s|
    ensures |Live(s, now)| == |s| ==> Live(s, now) == s
  {
    var live := Live(s, now);
    assert live.Keys <= s.Keys;
    SubsetSize(live.Keys, s.Keys);
    if |live| == |s| {
      assert live.Keys == s.Keys;
    }
  }

  lemma {:induction false} SubsetSize<T>(a: set<T>, b: set<T>)
    requires a <= b
    ensures |a| <= |b|
    ensures |a| == |b| ==> a == b
  {
    assert b == a + (b - a);
    assert |b| == |a| + |b - a|;
  }

  /** While an expired session is stored, an earliest-expiring one is expired. */
  lemma {:induction false} ExpiredGoesFirst(s: Sessions, now: int, oldest: string)
    requires EarliestExpiry(s, oldest)
    ensures Live(s, now) != s ==> s[oldest] <= now
  {
    if now < s[oldest] {
      assert forall id :: id in s ==> now < s[id];
      assert Live(s, now) == s;
    }
  }

  /** An insertion acts on the live sessions as the model's does. */
  lemma {:induction false} InsertSimulates(s: Sessions, now: int, id: string, expiry: int, s': Sessions)
    requires InsertStep(s, id, expiry, s') && |s| <= 100
    ensures |s'| <= 100
    ensures ModelStep(Live(s, now), LoginAt(id, expiry), now, Live(s', now))
  {
    var live := Live(s, now);
    LiveIsSmaller(s, now);
    LiveTwice(s, now, now);
    if |s| >= 100 {
      var oldest :| EarliestExpiry(s, oldest) && s' == (s - {oldest})[id := expiry];
      ExpiredGoesFirst(s, now, oldest);
      assert (s - {oldest}).Keys == s.Keys - {oldest};
      InsertSize(s - {oldest}, id, expiry);
      if live == s {
        assert InsertStep(live, id, expiry, s');
      } else {
        assert Live(s - {oldest}, now) == live;
        ModelInsertBelowCap(s - {oldest}, now, id, expiry);
      }
    } else {
      InsertSize(s, id, expiry);
      ModelInsertBelowCap(s, now, id, expiry);
    }
  }

  lemma InsertSize(s: Sessions, id: string, expiry: int)
    ensures |s[id := expiry]| <= |s| + 1
  {
    assert s[id := expiry].Keys == s.Keys + {id};
  }

  lemma {:induction false} ModelInsertBelowCap(s: Sessions, now: int, id: string, expiry: int)
    requires |Live(s, now)| < 100
    ensures ModelStep(Live(s, now), LoginAt(id, expiry), now, Live(s[id := expiry], now))
  {
    var live := Live(s, now);
    LiveTwice(s, now, now);
    var m' := live[id := expiry];
    assert InsertStep(live, id, expiry, m');
    assert Live(m', now) == Live(s[id := expiry], now);
  }

  /** Every operation acts on the live sessions as the model's does, and the cap holds. */
  lemma {:induction false} StepSimulates(s: Sessions, op: Op, now: int, s': Sessions)
    requires StoreStep(s, op, s') && At(op, now) && |s| <= 100
    ensures |s'| <= 100
    ensures ModelStep(Live(s, now), op, now, Live(s', now))
  {
    LiveTwice(s, now, now);
    match op
    case LoginAt(id, expiry) => InsertSimulates(s, now, id, expiry, s');
    case CheckAt(id, _) =>
      assert s'.Keys <= s.Keys;
      SubsetSize(s'.Keys, s.Keys);
      assert Live(s', now) == Live(s, now);
    case CleanupAt(_) =>
      LiveIsSmaller(s, now);
  }

  /** A run of the store: states before and after each timed operation. */
  ghost predicate StoreRun(states: seq<Sessions>, ops: seq<Op>, times: seq<int>) {
    && |states| == |ops| + 1 && |times| == |ops|
    && forall i :: 0 <= i < |ops| ==> StoreStep(states[i], ops[i], states[i + 1]) && At(ops[i], times[i])
  }

  ghost predicate NonDecreasing(times: seq<int>) {
    forall i, j :: 0 <= i < j < |times| ==> times[i] <= times[j]
  }

  /** The live sessions right after operation `i`, and before any at the start. */
  ghost function LiveAfter(states: seq<Sessions>, times: seq<int>, i: nat): Sessions
    requires i < |states| && i <= |times|
  {
    if i == 0 then states[0] else Live(states[i], times[i - 1])
  }

  /**
   Over any run with a non-decreasing clock the store stays within its cap and
   its live sessions take exactly the steps of the simple model, so that every
   lookup answers as the model does.
   */
  lemma {:induction false} RunSimulates(states: seq<Sessions>, ops: seq<Op>, times: seq<int>)
    requires StoreRun(states, ops, times) && NonDecreasing(times) && |states[0]| <= 100
    ensures forall i :: 0 <= i < |states| ==> |states[i]| <= 100
    ensures forall i :: 0 <= i < |ops| ==>
              ModelStep(LiveAfter(states, times, i), ops[i], times[i], LiveAfter(states, times, i + 1))
    ensures forall i :: 0 <= i < |ops| ==>
              Live(states[i], times[i]) == Live(LiveAfter(states, times, i), times[i])
  {
    hide StoreStep, ModelStep;
    CapHolds(states, ops, times, |ops|);
    forall i | 0 <= i < |ops|
      ensures ModelStep(LiveAfter(states, times, i), ops[i], times[i], LiveAfter(states, times, i + 1))
      ensures Live(states[i], times[i]) == Live(LiveAfter(states, times, i), times[i])
    {
      StepSimulates(states[i], ops[i], times[i], states[i + 1]);
      if i > 0 {
        LiveTwice(states[i], times[i - 1], times[i]);
        ModelSeesLiveOnly(LiveAfter(states, times, i), ops[i], times[i], LiveAfter(states, times, i + 1));
      } else {
        ModelSeesLiveOnly(states[0], ops[0], times[0], LiveAfter(states, times, 1));
      }
    }
  }

  lemma ModelSeesLiveOnly(m: Sessions, op: Op, now: int, m': Sessions)
    ensures ModelStep(Live(m, now), op, now, m') <==> ModelStep(m, op, now, m')
  {
    LiveTwice(m, now, now);
  }

  lemma {:induction false} CapHolds(states: seq<Sessions>, ops: seq<Op>, times: seq<int>, n: nat)
    requires StoreRun(states, ops, times) && |states[0]| <= 100 && n <= |ops|
    ensures forall i :: 0 <= i <= n ==> |states[i]| <= 100
  {
    hide StoreStep, ModelStep;
    if n > 0 {
      CapHolds(states, ops, times, n - 1);
      StepSimulates(states[n - 1], ops[n - 1], times[n - 1], states[n]);
    }
  }

  /** A live session is evicted only by a login that finds the cap's number of live ones. */
  lemma {:induction false} EvictionNeedsFullLive(s: Sessions, op: Op, now: int, s': Sessions, victim: string)
    requires StoreStep(s, op, s') && At(op, now) && |s| <= 100
    requires victim in Live(s, now) && victim !in s'
    ensures op.LoginAt? && |Live(s, now)| == 100 == |s|
    ensures forall id :: id in s ==> s[victim] <= s[id] && now < s[id]
  {
    LiveIsSmaller(s, now);
    match op
    case LoginAt(id, expiry) =>
      assert s[id := expiry].Keys == s.Keys + {id};
      var oldest :| EarliestExpiry(s, oldest) && s' == (s - {oldest})[id := expiry];
      assert s'.Keys == s.Keys - {oldest} + {id};
      ExpiredGoesFirst(s, now, oldest);
  }
}
