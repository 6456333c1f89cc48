/**
 The credential socket's request loop over the shared cache.

 While a request is handled, other connections and the sweeper may act before
 each lookup, during each fetch and before each put; `Other` lists what they can
 do. The clock, the vault's replies and the cache's puts so far make a `Moment`.
 The methods follow functions on moments, which say at what time each lookup
 happens and what the cache knew then.
 */
module LocalSocket {
  import opened Wrappers
  import opened CredCache

  /** A value that the vault returned, and whether to another connection. */
  datatype Reply = Reply(key: Key, value: string, at: nat, foreign: bool)

  /** One action of another connection or of the sweeper, after a delay. */
  datatype Other =
    | OtherFetch(delay: nat, key: Key, value: string)
    | OtherPut(delay: nat, reply: nat)
    | OtherLookup(delay: nat, key: Key)
    | Sweep(delay: nat)

  /** What one round of the loop meets: others' actions, and the vault's answer if it is asked. */
  datatype Round = Round(before: seq<Other>, during: seq<Other>, after: seq<Other>, vault: Option<string>)

  datatype Response = FieldsResponse(fields: map<string, string>) | ErrorResponse

  datatype Origin = FromCache(lookup: nat) | FromVault(reply: nat)

  datatype Served = Served(field: string, value: string, origin: Origin)

  datatype Moment = Moment(now: nat, replies: seq<Reply>, history: seq<Put>)

  // ------------------------------------------------------------------ moments

  function AfterReply(m: Moment, r: Reply): Moment {
    m.(replies := m.replies + [r])
  }

  /** A zero TTL switches the cache off. */
  function AfterPut(ttl: nat, m: Moment, r: Reply): Moment {
    if ttl == 0 then m else m.(history := m.history + [Put(r.key, r.value, m.now, ttl)])
  }

  function AfterOther(ttl: nat, m: Moment, o: Other): Moment {
    var later := m.(now := m.now + o.delay);
    match o
    case OtherFetch(_, key, value) => AfterReply(later, Reply(key, value, later.now, true))
    case OtherPut(_, reply) => if reply < |m.replies| then AfterPut(ttl, later, m.replies[reply]) else later
    case _ => later
  }

  function AfterOthers(ttl: nat, m: Moment, ops: seq<Other>): Moment {
    if ops == [] then m else AfterOther(ttl, AfterOthers(ttl, m, ops[..|ops| - 1]), ops[|ops| - 1])
  }

  /** One round: the cached value, or the vault's, which is then cached. */
  function AfterField(ttl: nat, m: Moment, key: Key, w: Round): (Moment, Option<Served>) {
    var seen := AfterOthers(ttl, m, w.before);
    match Answer(seen.history, key, seen.now)
    case Some(v) => (seen, Some(Served(key.field, v, FromCache(seen.now))))
    case None =>
      var fetched := AfterOthers(ttl, seen, w.during);
      match w.vault
      case None => (fetched, None)
      case Some(v) =>
        var r := Reply(key, v, fetched.now, false);
        (AfterPut(ttl, AfterOthers(ttl, AfterReply(fetched, r), w.after), r),
         Some(Served(key.field, v, FromVault(|fetched.replies|))))
  }

  /** After the rounds for the first `n` fields, of which a failed fetch is the last. */
  function AfterFields(ttl: nat, m: Moment, item: string, fields: seq<string>, world: nat -> Round, n: nat)
    : (r: (Moment, seq<Served>))
    requires n <= |fields|
    ensures |r.1| <= n
  {
    if n == 0 then (m, [])
    else
      var (before, served) := AfterFields(ttl, m, item, fields, world, n - 1);
      if |served| < n - 1 then (before, served)
      else
        match AfterField(ttl, before, Key(item, fields[n - 1]), world(n - 1))
        case (after, None) => (after, served)
        case (after, Some(s)) => (after, served + [s])
  }

  /** The moment at which the `j`-th field is looked up in the cache. */
  function LookupMoment(ttl: nat, m: Moment, item: string, fields: seq<string>, world: nat -> Round, j: nat): Moment
    requires j <= |fields|
  {
    AfterOthers(ttl, AfterFields(ttl, m, item, fields, world, j).0, world(j).before)
  }

  /** Served fields as a map; a field asked for again takes the later value. */
  function Collected(served: seq<Served>): (out: map<string, string>)
    ensures out.Keys == set j | 0 <= j < |served| :: served[j].field
  {
    if served == [] then map[]
    else
      var last := served[|served| - 1];
      Collected(served[..|served| - 1])[last.field := last.value]
  }

  lemma {:induction false} LatestIsCollected(served: seq<Served>, j: nat)
    requires j < |served| && forall k :: j < k < |served| ==> served[k].field != served[j].field
    ensures served[j].field in Collected(served) && Collected(served)[served[j].field] == served[j].value
  {
    if j < |served| - 1 {
      LatestIsCollected(served[..|served| - 1], j);
    }
  }

  // --------------------------------------------------------------- what is kept

  /** The put is of a value that the vault returned earlier for the key. */
  ghost predicate Backed(p: Put, replies: seq<Reply>) {
    exists i :: 0 <= i < |replies| && replies[i].key == p.key && replies[i].value == p.value && replies[i].at <= p.at
  }

  /** Every cached value came from the vault; a zero TTL keeps the cache empty. */
  ghost predicate Sound(ttl: nat, m: Moment) {
    && (forall i :: 0 <= i < |m.replies| ==> m.replies[i].at <= m.now)
    && (forall j :: 0 <= j < |m.history| ==>
          Backed(m.history[j], m.replies) && m.history[j].ttl == ttl && m.history[j].at <= m.now)
    && (ttl == 0 ==> m.history == [])
  }

  /** Time passes, and nothing that happened is undone. */
  ghost predicate Later(a: Moment, b: Moment) {
    a.now <= b.now && a.replies <= b.replies && a.history <= b.history
  }

  /** The vault returned the value for the key, and it was cached less than one TTL before. */
  ghost predicate Fresh(ttl: nat, seen: Moment, key: Key, v: string) {
    exists i :: 0 <= i < |seen.history| && seen.history[i].key == key && seen.history[i].value == v
                && seen.history[i].at <= seen.now < seen.history[i].at + ttl
                && Backed(seen.history[i], seen.replies)
  }

  /**
   The value is the cache's answer at the moment `seen`, and fresh then; or the
   cache had none at that moment and the vault returned it to this request, whose
   replies start at `mine`.
   */
  ghost predicate Justified(ttl: nat, s: Served, item: string, w: Round, seen: Moment, replies: seq<Reply>, mine: nat) {
    var key := Key(item, s.field);
    match s.origin
    case FromCache(lookup) =>
      && lookup == seen.now && Answer(seen.history, key, seen.now) == Some(s.value)
      && Fresh(ttl, seen, key, s.value)
    case FromVault(reply) =>
      && Answer(seen.history, key, seen.now) == None && w.vault == Some(s.value)
      && mine <= reply < |replies| && replies[reply].key == key && replies[reply].value == s.value
      && !replies[reply].foreign
  }

  /** The processed fields, in request order, each with a value justified at its own lookup. */
  ghost predicate AllJustified(ttl: nat, m: Moment, item: string, fields: seq<string>, world: nat -> Round,
                               served: seq<Served>, replies: seq<Reply>) {
    && |served| <= |fields|
    && forall j :: 0 <= j < |served| ==> JustifiedAt(ttl, m, item, fields, world, served, replies, j)
  }

  ghost predicate JustifiedAt(ttl: nat, m: Moment, item: string, fields: seq<string>, world: nat -> Round,
                              served: seq<Served>, replies: seq<Reply>, j: nat)
    requires j < |served| <= |fields|
  {
    && served[j].field == fields[j]
    && Justified(ttl, served[j], item, world(j), LookupMoment(ttl, m, item, fields, world, j), replies, |m.replies|)
  }

  lemma BackedGrows(p: Put, before: seq<Reply>, after: seq<Reply>)
    requires Backed(p, before) && before <= after
    ensures Backed(p, after)
  {
    var i :| 0 <= i < |before| && before[i].key == p.key && before[i].value == p.value && before[i].at <= p.at;
    assert after[i] == before[i];
  }

  lemma {:induction false} ReplyKeepsSound(ttl: nat, m: Moment, r: Reply)
    requires Sound(ttl, m) && r.at <= m.now
    ensures Sound(ttl, AfterReply(m, r)) && Later(m, AfterReply(m, r))
  {
    forall j | 0 <= j < |m.history|
      ensures Backed(m.history[j], m.replies + [r])
    {
      BackedGrows(m.history[j], m.replies, m.replies + [r]);
    }
  }

  lemma {:induction false} PutKeepsSound(ttl: nat, m: Moment, r: Reply)
    requires Sound(ttl, m) && r in m.replies
    ensures Sound(ttl, AfterPut(ttl, m, r)) && Later(m, AfterPut(ttl, m, r))
  {
    var i :| 0 <= i < |m.replies| && m.replies[i] == r;
    assert Backed(Put(r.key, r.value, m.now, ttl), m.replies);
  }

  lemma {:induction false} OtherKeepsSound(ttl: nat, m: Moment, o: Other)
    requires Sound(ttl, m)
    ensures Sound(ttl, AfterOther(ttl, m, o)) && Later(m, AfterOther(ttl, m, o))
  {
    var later := m.(now := m.now + o.delay);
    assert Sound(ttl, later);
    hide Sound, AfterReply, AfterPut;
    match o
    case OtherFetch(_, key, value) => ReplyKeepsSound(ttl, later, Reply(key, value, later.now, true));
    case OtherPut(_, reply) =>
      if reply < |m.replies| {
        PutKeepsSound(ttl, later, m.replies[reply]);
      }
    case _ =>
  }

  lemma {:induction false} OthersKeepSound(ttl: nat, m: Moment, ops: seq<Other>)
    requires Sound(ttl, m)
    ensures Sound(ttl, AfterOthers(ttl, m, ops)) && Later(m, AfterOthers(ttl, m, ops))
  {
    hide Sound, AfterOther;
    if ops != [] {
      OthersKeepSound(ttl, m, ops[..|ops| - 1]);
      OtherKeepsSound(ttl, AfterOthers(ttl, m, ops[..|ops| - 1]), ops[|ops| - 1]);
    }
  }

  /** A cached answer is fresh. */
  lemma {:induction false} AnswerIsFresh(ttl: nat, seen: Moment, key: Key, v: string)
    requires Sound(ttl, seen) && Answer(seen.history, key, seen.now) == Some(v)
    ensures Fresh(ttl, seen, key, v) && ttl != 0
  {
    var h := seen.history;
    AnswerIff(h, key, seen.now, v);
    var i: nat :| LatestOf(h, key, i) && h[i].value == v && seen.now < h[i].at + h[i].ttl;
  }

  /** The value is the last one put for its key, at this moment, unless the cache is off. */
  ghost predicate NowCached(ttl: nat, m: Moment, key: Key, v: string) {
    ttl > 0 ==> m.history != [] && m.history[|m.history| - 1] == Put(key, v, m.now, ttl)
  }

  /** For one TTL a fetched value answers from the cache, unless its key is put again. */
  lemma {:induction false} CachedForOneTtl(ttl: nat, m: Moment, key: Key, v: string, later: seq<Put>, now: nat)
    requires ttl > 0 && NowCached(ttl, m, key, v)
    requires m.history <= later && forall i :: |m.history| <= i < |later| ==> later[i].key != key
    ensures Answer(later, key, now) == Some(v) <==> now < m.now + ttl
  {
    var i := |m.history| - 1;
    assert LatestOf(later, key, i);
    AnswerIff(later, key, now, v);
    hide Answer;
  }

  /** One round keeps the cache sound, what it serves is justified, and what it fetches is then cached. */
  lemma {:induction false} FieldIsJustified(ttl: nat, m: Moment, item: string, f: string, w: Round)
    requires Sound(ttl, m)
    ensures var (after, s) := AfterField(ttl, m, Key(item, f), w);
            var seen := AfterOthers(ttl, m, w.before);
            && Sound(ttl, after) && Later(m, after)
            && (s.Some? ==> s.value.field == f
                            && Justified(ttl, s.value, item, w, seen, after.replies, |m.replies|)
                            && (ttl == 0 ==> s.value.origin.FromVault?))
            && (s.None? ==> w.vault == None && Answer(seen.history, Key(item, f), seen.now) == None)
            && (s.Some? && s.value.origin.FromVault? ==> NowCached(ttl, after, Key(item, f), s.value.value))
  {
    hide Sound, Fresh, Answer, AfterOthers;
    var key := Key(item, f);
    var seen := AfterOthers(ttl, m, w.before);
    OthersKeepSound(ttl, m, w.before);
    match Answer(seen.history, key, seen.now)
    case Some(v) => AnswerIsFresh(ttl, seen, key, v);
    case None =>
      var fetched := AfterOthers(ttl, seen, w.during);
      OthersKeepSound(ttl, seen, w.during);
      if w.vault.Some? {
        var r := Reply(key, w.vault.value, fetched.now, false);
        var logged := AfterReply(fetched, r);
        ReplyKeepsSound(ttl, fetched, r);
        OthersKeepSound(ttl, logged, w.after);
        var last := AfterOthers(ttl, logged, w.after);
        assert last.replies[|fetched.replies|] == r;
        PutKeepsSound(ttl, last, r);
      }
  }

  lemma JustifiedLater(ttl: nat, s: Served, item: string, w: Round, seen: Moment, mine: nat,
                       before: seq<Reply>, since: nat, after: seq<Reply>)
    requires Justified(ttl, s, item, w, seen, before, since) && mine <= since && before <= after
    ensures Justified(ttl, s, item, w, seen, after, mine)
  {
  }

  /** Every served value of a request is justified; an unserved field is a failed fetch. */
  lemma {:induction false} RequestIsJustified(ttl: nat, m: Moment, item: string, fields: seq<string>,
                                              world: nat -> Round, n: nat)
    requires Sound(ttl, m) && n <= |fields|
    ensures var (after, served) := AfterFields(ttl, m, item, fields, world, n);
            && Sound(ttl, after) && Later(m, after)
            && AllJustified(ttl, m, item, fields, world, served, after.replies)
            && (ttl == 0 ==> forall j :: 0 <= j < |served| ==> served[j].origin.FromVault?)
            && (|served| < n ==> FetchFailed(ttl, m, item, fields, world, |served|))
  {
    hide Sound, Justified, AfterField, AfterOthers, FetchFailed;
    if n > 0 {
      RequestIsJustified(ttl, m, item, fields, world, n - 1);
      var (before, served) := AfterFields(ttl, m, item, fields, world, n - 1);
      if |served| == n - 1 {
        var w := world(n - 1);
        FieldIsJustified(ttl, before, item, fields[n - 1], w);
        var (after, s) := AfterField(ttl, before, Key(item, fields[n - 1]), w);
        var seen := LookupMoment(ttl, m, item, fields, world, n - 1);
        forall j | 0 <= j < n - 1
          ensures JustifiedAt(ttl, m, item, fields, world, served, after.replies, j)
        {
          assert JustifiedAt(ttl, m, item, fields, world, served, before.replies, j);
          JustifiedLater(ttl, served[j], item, world(j), LookupMoment(ttl, m, item, fields, world, j), |m.replies|,
                         before.replies, |m.replies|, after.replies);
        }
        if s.Some? {
          JustifiedLater(ttl, s.value, item, w, seen, |m.replies|, after.replies, |before.replies|, after.replies);
          ServedAlso(ttl, m, item, fields, world, served, after.replies, s.value);
        } else {
          FailedHere(ttl, m, item, fields, world, n - 1);
        }
      }
    }
  }

  lemma ServedAlso(ttl: nat, m: Moment, item: string, fields: seq<string>, world: nat -> Round,
                   served: seq<Served>, replies: seq<Reply>, s: Served)
    requires AllJustified(ttl, m, item, fields, world, served, replies)
    requires |served| < |fields| && s.field == fields[|served|]
    requires Justified(ttl, s, item, world(|served|), LookupMoment(ttl, m, item, fields, world, |served|), replies,
                       |m.replies|)
    ensures AllJustified(ttl, m, item, fields, world, served + [s], replies)
  {
    hide Justified, LookupMoment;
    forall j | 0 <= j < |served|
      ensures JustifiedAt(ttl, m, item, fields, world, served + [s], replies, j)
    {
      assert JustifiedAt(ttl, m, item, fields, world, served, replies, j);
    }
  }

  /** The cache had no answer for the field at its lookup, and the fetch failed. */
  ghost predicate FetchFailed(ttl: nat, m: Moment, item: string, fields: seq<string>, world: nat -> Round, j: nat)
    requires j < |fields|
  {
    var seen := LookupMoment(ttl, m, item, fields, world, j);
    Answer(seen.history, Key(item, fields[j]), seen.now) == None && world(j).vault == None
  }

  lemma FailedHere(ttl: nat, m: Moment, item: string, fields: seq<string>, world: nat -> Round, j: nat)
    requires j < |fields| && world(j).vault == None
    requires var seen := LookupMoment(ttl, m, item, fields, world, j);
             Answer(seen.history, Key(item, fields[j]), seen.now) == None
    ensures FetchFailed(ttl, m, item, fields, world, j)
  {
  }

  // ----------------------------------------------------------------- the server

  class SocketServer {
    const cache: CredCache
    var now: nat
    var replies: seq<Reply>

    constructor (ttl: nat)
      ensures Valid() && fresh(cache) && cache.defaultTtl == ttl
    {
      var c := new CredCache.WithTtl(ttl);
      cache := c;
      now := 0;
      replies := [];
    }

    ghost function View(): Moment
      reads this, cache
    {
      Moment(now, replies, cache.history)
    }

    ghost predicate Valid()
      reads this, cache
    {
      cache.Valid() && cache.clock <= now && Sound(cache.defaultTtl, View())
    }

    /** Other connections behave like this one: they cache what the vault returned. */
    method Others(ops: seq<Other>)
      requires Valid()
      modifies this, cache
      ensures Valid() && View() == AfterOthers(cache.defaultTtl, old(View()), ops)
    {
      hide Valid, AfterOther;
      for i := 0 to |ops|
        invariant Valid() && View() == AfterOthers(cache.defaultTtl, old(View()), ops[..i])
      {
        assert ops[..i + 1][..i] == ops[..i];
        Act(ops[i]);
      }
      assert ops[..|ops|] == ops;
    }

    method Act(o: Other)
      requires Valid()
      modifies this, cache
      ensures Valid() && View() == AfterOther(cache.defaultTtl, old(View()), o)
    {
      hide Sound;
      OtherKeepsSound(cache.defaultTtl, View(), o);
      now := now + o.delay;
      match o {
        case OtherFetch(_, key, value) =>
          replies := replies + [Reply(key, value, now, true)];
        case OtherPut(_, reply) =>
          if reply < |replies| {
            CacheValue(replies[reply]);
          }
        case OtherLookup(_, key) =>
          var _ := cache.Get(key.item, key.field, now);
        case Sweep(_) =>
          cache.PurgeExpired(now);
      }
    }

    method CacheValue(r: Reply)
      requires cache.Valid() && cache.clock <= now
      modifies cache
      ensures cache.Valid() && cache.clock <= now && View() == AfterPut(cache.defaultTtl, old(View()), r)
    {
      cache.PutEntry(r.key.item, r.key.field, r.value, None, now);
      assert r.key == Key(r.key.item, r.key.field);
    }

    /** One round of the loop for one field. */
    method FieldValue(item: string, f: string, w: Round) returns (v: Option<string>, ghost s: Option<Served>)
      requires Valid()
      modifies this, cache
      ensures Valid() && (View(), s) == AfterField(cache.defaultTtl, old(View()), Key(item, f), w)
      ensures v == match s case None => None case Some(served) => Some(served.value)
    {
      hide Sound, AfterOthers, Answer;
      ghost var start := View();
      FieldIsJustified(cache.defaultTtl, start, item, f, w);
      Others(w.before);
      v := cache.Get(item, f, now);
      if v.Some? {
        s := Some(Served(f, v.value, FromCache(now)));
        return;
      }
      Others(w.during);
      s := None;
      v := w.vault;
      if v.None? {
        return;
      }
      var r := Reply(Key(item, f), v.value, now, false);
      s := Some(Served(f, v.value, FromVault(|replies|)));
      ReplyKeepsSound(cache.defaultTtl, View(), r);
      replies := replies + [r];
      Others(w.after);
      CacheValue(r);
    }

    /**
     Answers a request for fields of an item; `world(j)` is what the `j`-th
     field's round meets.
     */
    method GetItemFields(item: string, fields: seq<string>, world: nat -> Round)
      returns (r: Response, ghost served: seq<Served>)
      requires Valid()
      modifies this, cache
      ensures Valid() && Later(old(View()), View())
      ensures (View(), served) == AfterFields(cache.defaultTtl, old(View()), item, fields, world, |fields|)
      // every value served is justified at its own lookup, field by field
      ensures AllJustified(cache.defaultTtl, old(View()), item, fields, world, served, replies)
      // with a zero TTL everything was fetched within the request
      ensures cache.defaultTtl == 0 ==> forall j :: 0 <= j < |served| ==> served[j].origin.FromVault?
      // a success carries exactly the requested fields with their served values
      ensures |served| == |fields| ==> r == FieldsResponse(Collected(served)) && r.fields.Keys == set f | f in fields
      // an error is the first fetch that failed
      ensures |served| < |fields| ==> r == ErrorResponse
                                      && FetchFailed(cache.defaultTtl, old(View()), item, fields, world, |served|)
    {
      hide Sound, AfterField, FetchFailed, JustifiedAt;
      var out: map<string, string> := map[];
      served := [];
      RequestIsJustified(cache.defaultTtl, View(), item, fields, world, |fields|);
      for j := 0 to |fields|
        invariant Valid() && |served| == j && out == Collected(served)
        invariant (View(), served) == AfterFields(cache.defaultTtl, old(View()), item, fields, world, j)
      {
        var v;
        ghost var s;
        v, s := FieldValue(item, fields[j], world(j));
        if v.None? {
          StopsHere(cache.defaultTtl, old(View()), item, fields, world, j + 1, |fields|);
          return ErrorResponse, served;
        }
        FieldOf(cache.defaultTtl, old(View()), item, fields, world, j);
        assert (served + [s.value])[..j] == served;
        served := served + [s.value];
        out := out[fields[j] := v.value];
      }
      RequestedFields(cache.defaultTtl, old(View()), item, fields, world, served, replies);
      return FieldsResponse(out), served;
    }
  }

  /** A failed fetch is the request's last round. */
  lemma {:induction false} StopsHere(ttl: nat, m: Moment, item: string, fields: seq<string>, world: nat -> Round,
                                     n: nat, later: nat)
    requires n <= later <= |fields| && |AfterFields(ttl, m, item, fields, world, n).1| < n
    ensures AfterFields(ttl, m, item, fields, world, later) == AfterFields(ttl, m, item, fields, world, n)
  {
    if n < later {
      StopsHere(ttl, m, item, fields, world, n, later - 1);
    }
  }

  /** What a round serves, it serves for its own field. */
  lemma FieldOf(ttl: nat, m: Moment, item: string, fields: seq<string>, world: nat -> Round, j: nat)
    requires j < |fields|
    ensures var s := AfterField(ttl, AfterFields(ttl, m, item, fields, world, j).0, Key(item, fields[j]), world(j)).1;
            s.Some? ==> s.value.field == fields[j]
  {
  }

  lemma RequestedFields(ttl: nat, m: Moment, item: string, fields: seq<string>, world: nat -> Round,
                        served: seq<Served>, replies: seq<Reply>)
    requires AllJustified(ttl, m, item, fields, world, served, replies) && |served| == |fields|
    ensures Collected(served).Keys == set f | f in fields
  {
    hide Justified;
    forall j | 0 <= j < |fields|
      ensures served[j].field == fields[j]
    {
      assert JustifiedAt(ttl, m, item, fields, world, served, replies, j);
    }
    assert forall f :: f in fields <==> exists j :: 0 <= j < |fields| && served[j].field == f;
  }
}
