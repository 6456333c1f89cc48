/** The capped queue of two-factor approval requests that a rotation adds to. */
module ApprovalQueue {
  import opened Wrappers
  import opened Sequences

  datatype Request = Request(id: string, pending: bool)

  const APPROVAL_QUEUE_MAX := 64

  function FirstResolved(q: seq<Request>): (r: Option<nat>)
    ensures r.Some? ==> r.value < |q| && !q[r.value].pending && forall i :: 0 <= i < r.value ==> q[i].pending
    ensures r.None? ==> forall i :: 0 <= i < |q| ==> q[i].pending
  {
    if q == [] then None
    else if !q[0].pending then Some(0)
    else
      match FirstResolved(q[1..])
      case None => None
      case Some(i) => Some(i + 1)
  }

  function Without(q: seq<Request>, i: nat): seq<Request>
    requires i < |q|
  {
    q[..i] + q[i + 1..]
  }

  /** The queue after a request: a full one first loses its oldest resolved, or else its oldest, entry. */
  function Pushed(q: seq<Request>, r: Request): seq<Request> {
    (if |q| >= APPROVAL_QUEUE_MAX then Without(q, FirstResolved(q).GetOr(0)) else q) + [r]
  }

  class ApprovalQueue {
    var queue: seq<Request>

    constructor ()
      ensures queue == []
    {
      queue := [];
    }

    /**
     Never refuses: the refusing branch needs a queue that is at capacity and
     empty, although its message speaks of a queue full of pending requests.
     */
    method Enqueue(r: Request) returns (ok: bool)
      modifies this
      ensures ok && queue == Pushed(old(queue), r)
    {
      if |queue| >= APPROVAL_QUEUE_MAX {
        var evict := FirstResolved(queue);
        if evict.None? && queue != [] {
          evict := Some(0);
        }
        if evict.None? {
          assert false;
        }
        queue := Without(queue, evict.value);
      }
      queue := queue + [r];
      return true;
    }
  }

  function Pending(q: seq<Request>): seq<Request> {
    if q == [] then [] else (if q[0].pending then [q[0]] else []) + Pending(q[1..])
  }

  lemma {:induction false} PendingConcat(a: seq<Request>, b: seq<Request>)
    ensures Pending(a + b) == Pending(a) + Pending(b)
  {
    if a == [] {
      assert a + b == b;
    } else {
      PendingConcat(a[1..], b);
      TailOfConcat(a, b);
      ConcatAssociative(if a[0].pending then [a[0]] else [], Pending(a[1..]), Pending(b));
    }
  }

  /** The cap holds, and a pending request is lost exactly when a full queue has nothing else. */
  lemma {:induction false} PushLaw(q: seq<Request>, r: Request)
    requires r.pending && |q| <= 64
    ensures |Pushed(q, r)| <= 64
    ensures Pending(Pushed(q, r)) ==
            (if |q| == 64 && Pending(q) == q then q[1..] else Pending(q)) + [r]
  {
    var kept := if |q| >= 64 then Without(q, FirstResolved(q).GetOr(0)) else q;
    PendingConcat(kept, [r]);
    assert [r][1..] == [] && Pending([r]) == [r];
    if |q| == 64 {
      match FirstResolved(q)
      case None =>
        AllPending(q);
        AllPending(q[1..]);
        assert kept == q[1..];
      case Some(i) =>
        WithoutResolved(q, i);
        if Pending(q) == q {
          PendingArePending(q, i);
          assert false;
        }
    }
  }

  /** Of a full queue the oldest resolved entry goes, or the oldest if none is resolved. */
  lemma {:induction false} EvictsOldestResolved(q: seq<Request>, r: Request, i: nat)
    requires |q| == 64 && i < 64 && (forall j :: 0 <= j < i ==> q[j].pending)
    ensures !q[i].pending ==> Pushed(q, r) == q[..i] + q[i + 1..] + [r]
    ensures (forall j :: 0 <= j < 64 ==> q[j].pending) ==> Pushed(q, r) == q[1..] + [r]
    ensures |q[1..]| < 64 ==> Pushed(q[1..], r) == q[1..] + [r]
  {
    var first := FirstResolved(q);
    if !q[i].pending {
      assert first == Some(i);
    }
    assert [] + q[1..] == q[1..];
  }

  /** A queue of 64 pending requests, whose first is dropped by the next. */
  lemma {:induction false} PendingCanBeLost(r: Request)
    requires r.pending
    ensures var q := seq(64, _ => Request("waiting", true));
            Pending(q) == q && Pending(Pushed(q, r)) == q[1..] + [r]
  {
    var q := seq(64, _ => Request("waiting", true));
    AllPending(q);
    PushLaw(q, r);
  }

  lemma {:induction false} AllPending(q: seq<Request>)
    requires forall i :: 0 <= i < |q| ==> q[i].pending
    ensures Pending(q) == q
  {
    if q != [] {
      AllPending(q[1..]);
      assert q == [q[0]] + q[1..];
    }
  }

  lemma {:induction false} PendingArePending(q: seq<Request>, i: nat)
    requires i < |Pending(q)|
    ensures Pending(q)[i].pending
  {
    if q[0].pending {
      if i > 0 {
        PendingArePending(q[1..], i - 1);
      }
    } else {
      PendingArePending(q[1..], i);
    }
  }

  lemma {:induction false} WithoutResolved(q: seq<Request>, i: nat)
    requires i < |q| && !q[i].pending
    ensures Pending(Without(q, i)) == Pending(q)
  {
    assert q == q[..i] + ([q[i]] + q[i + 1..]);
    PendingConcat(q[..i], q[i + 1..]);
    PendingConcat([q[i]], q[i + 1..]);
    PendingConcat(q[..i], [q[i]] + q[i + 1..]);
    assert [q[i]][1..] == [] && Pending([q[i]]) == [];
    assert [] + Pending(q[i + 1..]) == Pending(q[i + 1..]);
  }
}
