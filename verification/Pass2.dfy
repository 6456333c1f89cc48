/**
 The Pass-2 login checker: per-host rate limit and strike blacklist, and the
 worker that drives each listed item through at most one login attempt.

 Vault, database, browser and clock are an `ItemWorld` per item. Attempts and
 row updates are recorded in ghost sequences that span all workers run on one
 engine, one after the other.
 */
module Pass2 {
  import opened Wrappers

  datatype Verdict =
    | Success
    | Failure
    | MfaRequired
    | Captcha
    | Lockout
    | PasswordResetRequired
    | Unknown
    | BrowserCrash
    | PageTimeout
    | NoLoginForm

  datatype Status = Alive | Dead | Untestable

  const RATE_LIMIT_PER_HOST := 300
  const HOST_BLACKLIST_THRESHOLD := 2

  predicate IsStrike(v: Verdict) {
    v.Captcha? || v.Lockout? || v.NoLoginForm?
  }

  function MapVerdictToStatus(v: Verdict): (Status, bool) {
    match v
    case Success => (Alive, false)
    case Failure => (Dead, true)
    case PasswordResetRequired => (Alive, false)
    case MfaRequired => (Alive, false)
    case _ => (Untestable, false)
  }

  /** A login attempt; `None` as verdict when judging it failed. */
  datatype Attempt = Attempt(item: string, host: string, at: nat, verdict: Option<Verdict>)

  /** A row update, with the attempt behind it if there was one. */
  datatype Update =
    Update(run: string, item: string, verdict: Verdict, status: Status, marked: bool, attempt: Option<nat>)
  {
    predicate Of(run: string, item: string) {
      this.run == run && this.item == item
    }
  }

  datatype Row = Row(verdict: Option<Verdict>, status: Status, marked: bool)

  /** What the vault answers, or its error. */
  datatype Answered<T> = VaultError | Reply(value: T)

  /**
   One item's circumstances: its URL (and that URL's host, if it parses),
   user name and password lookups, how the attempt is judged, whether the
   database takes the update, and the time that passes before check and attempt.
   */
  datatype ItemWorld = ItemWorld(
    url: Answered<Option<Option<string>>>,
    usernameOk: bool,
    hasPassword: Answered<bool>,
    verdict: Option<Verdict>,
    dbOk: bool,
    checkDelay: nat,
    attemptDelay: nat)

  // ------------------------------------------------------------ attempt history

  function Strikes(attempts: seq<Attempt>, host: string): nat {
    if attempts == [] then 0
    else
      var last := attempts[|attempts| - 1];
      Strikes(attempts[..|attempts| - 1], host)
      + if last.host == host && last.verdict.Some? && IsStrike(last.verdict.value) then 1 else 0
  }

  function LastAttempt(attempts: seq<Attempt>, host: string): Option<nat> {
    if attempts == [] then None
    else
      var last := attempts[|attempts| - 1];
      if last.host == host then Some(last.at) else LastAttempt(attempts[..|attempts| - 1], host)
  }

  /** Two attempts on one host are at least the rate limit apart. */
  ghost predicate SpacedPerHost(attempts: seq<Attempt>) {
    forall i, j :: 0 <= i < j < |attempts| && attempts[i].host == attempts[j].host ==>
                     attempts[j].at - attempts[i].at >= 300
  }

  /** No attempt on a host follows its second strike. */
  ghost predicate NoneAfterBlacklisting(attempts: seq<Attempt>) {
    forall j :: 0 <= j < |attempts| ==> Strikes(attempts[..j], attempts[j].host) < 2
  }

  ghost predicate InTimeOrder(attempts: seq<Attempt>, now: nat) {
    && (forall i, j :: 0 <= i < j < |attempts| ==> attempts[i].at <= attempts[j].at)
    && (forall i :: 0 <= i < |attempts| ==> attempts[i].at <= now)
  }

  ghost predicate PoliteHistory(attempts: seq<Attempt>, now: nat) {
    SpacedPerHost(attempts) && NoneAfterBlacklisting(attempts) && InTimeOrder(attempts, now)
  }

  lemma {:induction false} LastAttemptIsLatest(attempts: seq<Attempt>, host: string, now: nat)
    requires InTimeOrder(attempts, now)
    ensures forall i :: 0 <= i < |attempts| && attempts[i].host == host ==>
              LastAttempt(attempts, host).Some? && attempts[i].at <= LastAttempt(attempts, host).value
  {
    if attempts != [] {
      var init := attempts[..|attempts| - 1];
      assert forall i :: 0 <= i < |init| ==> init[i] == attempts[i];
      LastAttemptIsLatest(init, host, now);
    }
  }

  /** An attempt that both gates let through keeps the history polite. */
  lemma {:induction false} PoliteGrows(attempts: seq<Attempt>, now: nat, check: nat, a: Attempt)
    requires PoliteHistory(attempts, now) && now <= check <= a.at
    requires Strikes(attempts, a.host) < HOST_BLACKLIST_THRESHOLD
    requires LastAttempt(attempts, a.host).Some? ==> check - LastAttempt(attempts, a.host).value >= RATE_LIMIT_PER_HOST
    ensures PoliteHistory(attempts + [a], a.at)
  {
    hide Strikes;
    var more := attempts + [a];
    LastAttemptIsLatest(attempts, a.host, now);
    assert forall i :: 0 <= i < |attempts| ==> more[i] == attempts[i];
    forall j | 0 <= j < |more|
      ensures Strikes(more[..j], more[j].host) < HOST_BLACKLIST_THRESHOLD
    {
      assert more[..j] == attempts[..j];
      assert attempts[..|attempts|] == attempts;
    }
  }

  lemma HistoryStep(attempts: seq<Attempt>, a: Attempt)
    ensures forall h :: LastAttempt(attempts + [a], h) == if h == a.host then Some(a.at) else LastAttempt(attempts, h)
    ensures forall h ::
              Strikes(attempts + [a], h) ==
              Strikes(attempts, h) + if h == a.host && a.verdict.Some? && IsStrike(a.verdict.value) then 1 else 0
  {
    assert (attempts + [a])[..|attempts|] == attempts;
  }

  /** What is to be done with an item, told from the attempts so far. */
  datatype Decision = Abort | Skip(reason: Verdict) | Try(host: string)

  ghost function Decide(attempts: seq<Attempt>, now: nat, w: ItemWorld): Decision {
    if w.url.VaultError? then Abort
    else if w.url.value.None? || w.url.value.value.None? then Skip(NoLoginForm)
    else
      var host, check := w.url.value.value.value, now + w.checkDelay;
      if Strikes(attempts, host) >= HOST_BLACKLIST_THRESHOLD then Skip(Captcha)
      else if TooSoon(attempts, host, check) then Skip(Unknown)
      else if !w.usernameOk || w.hasPassword.VaultError? then Abort
      else if !w.hasPassword.value then Skip(NoLoginForm)
      else Try(host)
  }

  ghost predicate TooSoon(attempts: seq<Attempt>, host: string, now: nat) {
    LastAttempt(attempts, host).Some? && now - LastAttempt(attempts, host).value < RATE_LIMIT_PER_HOST
  }

  /** The update an attempt leads to; `k` is the attempt's place in the history. */
  function UpdateAfter(run: string, item: string, v: Option<Verdict>, k: nat): Update {
    match v
    case None => Update(run, item, BrowserCrash, Untestable, false, Some(k))
    case Some(v) => var (status, marked) := MapVerdictToStatus(v); Update(run, item, v, status, marked, Some(k))
  }

  // ------------------------------------------------------------- what a worker does

  /** The clock, the rows, and what has been attempted and updated so far. */
  datatype Progress = Progress(now: nat, rows: map<(string, string), Row>, attempts: seq<Attempt>, updates: seq<Update>)

  /** An update lands unless the database fails, and overwrites the item's row if there is one. */
  function AfterUpdate(p: Progress, u: Update, dbOk: bool): (Progress, bool) {
    if !dbOk then (p, false)
    else
      var row := Row(Some(u.verdict), u.status, u.marked);
      (p.(updates := p.updates + [u],
          rows := if (u.run, u.item) in p.rows then p.rows[(u.run, u.item) := row] else p.rows),
       true)
  }

  function AfterAttempt(p: Progress, item: string, host: string, w: ItemWorld): Progress {
    var at := p.now + w.attemptDelay;
    p.(now := at, attempts := p.attempts + [Attempt(item, host, at, w.verdict)])
  }

  /** Handling one item: its decision carried out, and whether the worker goes on. */
  ghost function AfterItem(p: Progress, run: string, item: string, w: ItemWorld): (Progress, bool) {
    var checked := if w.url.VaultError? || w.url.value.None? || w.url.value.value.None? then p
                   else p.(now := p.now + w.checkDelay);
    match Decide(p.attempts, p.now, w)
    case Abort => (checked, false)
    case Skip(reason) => AfterUpdate(checked, Update(run, item, reason, Untestable, false, None), w.dbOk)
    case Try(host) =>
      AfterUpdate(AfterAttempt(checked, item, host, w), UpdateAfter(run, item, w.verdict, |p.attempts|), w.dbOk)
  }

  /** The first `n` items, up to the first that fails, and how many were updated. */
  ghost function AfterItems(p: Progress, run: string, items: seq<string>, world: nat -> ItemWorld, n: nat)
    : (r: (Progress, nat))
    requires n <= |items|
    ensures r.1 <= n
  {
    if n == 0 then (p, 0)
    else
      var (before, done) := AfterItems(p, run, items, world, n - 1);
      if done < n - 1 then (before, done)
      else
        var (after, ok) := AfterItem(before, run, items[n - 1], world(n - 1));
        (after, if ok then n else done)
  }

  /** Neither the vault nor the database fails for the item. */
  predicate NoErrors(w: ItemWorld) {
    !w.url.VaultError? && w.usernameOk && !w.hasPassword.VaultError? && w.dbOk
  }

  /** A failed item is the last one handled. */
  lemma {:induction false} StopsHere(p: Progress, run: string, items: seq<string>, world: nat -> ItemWorld,
                                     n: nat, later: nat)
    requires n <= later <= |items| && AfterItems(p, run, items, world, n).1 < n
    ensures AfterItems(p, run, items, world, later) == AfterItems(p, run, items, world, n)
  {
    if n < later {
      StopsHere(p, run, items, world, n, later - 1);
    }
  }

  /** Some attempt, the `from`-th or later, was on the item and judged a failure. */
  ghost predicate FailedAttempt(attempts: seq<Attempt>, from: nat, item: string) {
    exists k :: from <= k < |attempts| && attempts[k].item == item && attempts[k].verdict == Some(Failure)
  }

  /**
   A worker's progress through these items: one update each, in order; other
   rows stay; a listed item's row is marked only after an attempt on it, made
   since `p`, that was judged a failure.
   */
  ghost predicate Worked(p: Progress, q: Progress, run: string, items: seq<string>) {
    && p.attempts <= q.attempts && p.updates <= q.updates
    && |q.updates| == |p.updates| + |items|
    && (forall i :: 0 <= i < |items| ==> q.updates[|p.updates| + i].Of(run, items[i]))
    && q.rows.Keys == p.rows.Keys
    && (forall k :: k in q.rows && (k.0 != run || k.1 !in items) ==> q.rows[k] == p.rows[k])
    && (forall item <- items :: (run, item) in q.rows && q.rows[(run, item)].marked ==>
          FailedAttempt(q.attempts, |p.attempts|, item))
  }

  lemma {:induction false} ItemLaws(p: Progress, run: string, item: string, w: ItemWorld)
    ensures var (q, ok) := AfterItem(p, run, item, w);
            && Worked(p, q, run, if ok then [item] else [])
            && (NoErrors(w) ==> ok)
  {
    hide LastAttempt, Strikes;
    var (q, ok) := AfterItem(p, run, item, w);
    match Decide(p.attempts, p.now, w)
    case Try(host) =>
      assert q.attempts[|p.attempts|].item == item && q.attempts[|p.attempts|].verdict == w.verdict;
    case _ =>
  }

  lemma {:induction false} WorkedOn(p: Progress, q: Progress, r: Progress, run: string,
                                    items: seq<string>, more: seq<string>)
    requires Worked(p, q, run, items) && Worked(q, r, run, more)
    ensures Worked(p, r, run, items + more)
  {
    FailedAttemptKept(q.attempts, r.attempts, |p.attempts|);
    FailedAttemptEarlier(r.attempts, |p.attempts|, |q.attempts|);
    hide FailedAttempt;
    forall i | 0 <= i < |items + more|
      ensures r.updates[|p.updates| + i].Of(run, (items + more)[i])
    {
      if i < |items| {
        assert q.updates[|p.updates| + i].Of(run, items[i]);
      } else {
        var j := i - |items|;
        assert r.updates[|q.updates| + j].Of(run, more[j]);
      }
    }
    forall k | k in r.rows && (k.0 != run || k.1 !in items + more)
      ensures r.rows[k] == p.rows[k]
    {
      assert k in q.rows && (k.0 != run || (k.1 !in items && k.1 !in more));
    }
    forall item | item in items + more && (run, item) in r.rows && r.rows[(run, item)].marked
      ensures FailedAttempt(r.attempts, |p.attempts|, item)
    {
      if item !in more {
        assert r.rows[(run, item)] == q.rows[(run, item)];
      }
    }
  }

  /** The laws of a whole worker, for the items it updated. */
  lemma {:induction false} WorkerLaws(p: Progress, run: string, items: seq<string>, world: nat -> ItemWorld, n: nat)
    requires n <= |items|
    ensures var (q, done) := AfterItems(p, run, items, world, n);
            && Worked(p, q, run, items[..done])
            && ((forall i :: 0 <= i < n ==> NoErrors(world(i))) ==> done == n)
  {
    hide Worked, AfterItem, NoErrors;
    if n == 0 {
      NothingWorked(p, run);
    } else {
      WorkerLaws(p, run, items, world, n - 1);
      var (before, done) := AfterItems(p, run, items, world, n - 1);
      if done == n - 1 {
        var (after, ok) := AfterItem(before, run, items[n - 1], world(n - 1));
        ItemLaws(before, run, items[n - 1], world(n - 1));
        WorkedOn(p, before, after, run, items[..n - 1], if ok then [items[n - 1]] else []);
        assert items[..n - 1] + [] == items[..n - 1] && items[..n - 1] + [items[n - 1]] == items[..n];
      }
    }
  }

  lemma NothingWorked(p: Progress, run: string)
    ensures Worked(p, p, run, [])
  {
  }

  // ----------------------------------------------- when an item is attempted

  /** The attempts on the host whose verdict counts against it. */
  ghost function StrikeAttempts(attempts: seq<Attempt>, host: string): set<nat> {
    set k: nat | k < |attempts| && attempts[k].host == host
                 && (|| attempts[k].verdict == Some(Captcha)
                     || attempts[k].verdict == Some(Lockout)
                     || attempts[k].verdict == Some(NoLoginForm))
  }

  /** Every attempt on the host is at least 300 seconds old. */
  ghost predicate Rested(attempts: seq<Attempt>, host: string, now: nat) {
    forall k :: 0 <= k < |attempts| && attempts[k].host == host ==> attempts[k].at + 300 <= now
  }

  predicate HasHost(w: ItemWorld) {
    w.url.Reply? && w.url.value.Some? && w.url.value.value.Some?
  }

  /** The host is below two strikes and rested when the item is checked. */
  ghost predicate HostOpen(p: Progress, w: ItemWorld)
    requires HasHost(w)
  {
    var host := w.url.value.value.value;
    |StrikeAttempts(p.attempts, host)| < 2 && Rested(p.attempts, host, p.now + w.checkDelay)
  }

  /** The vault has a host, the host is open, and the vault has a password. */
  ghost predicate Attempted(p: Progress, w: ItemWorld) {
    HasHost(w) && HostOpen(p, w) && w.usernameOk && w.hasPassword == Reply(true)
  }

  /** What is written for an item that is not attempted: the first test that fails. */
  ghost predicate SkipReason(p: Progress, w: ItemWorld, reason: Verdict) {
    if !HasHost(w) then reason == NoLoginForm
    else
      var host := w.url.value.value.value;
      if |StrikeAttempts(p.attempts, host)| >= 2 then reason == Captcha
      else if !Rested(p.attempts, host, p.now + w.checkDelay) then reason == Unknown
      else reason == NoLoginForm
  }

  /** The row that a judged attempt leads to. */
  predicate Judged(v: Option<Verdict>, u: Update) {
    && u.verdict == v.GetOr(BrowserCrash)
    && (u.marked <==> v == Some(Failure))
    && (u.status == Dead <==> v == Some(Failure))
    && (u.status == Alive <==> v == Some(Success) || v == Some(PasswordResetRequired) || v == Some(MfaRequired))
  }

  /** The vault fails before the item is decided, or the database when it is written. */
  ghost predicate ItemFails(p: Progress, w: ItemWorld) {
    || w.url.VaultError?
    || (HasHost(w) && HostOpen(p, w) && (!w.usernameOk || w.hasPassword.VaultError?))
    || !w.dbOk
  }

  /**
   One item from `p` to `q`: attempted exactly once or not at all, and, unless
   it fails, written exactly once.
   */
  ghost predicate ItemHandled(p: Progress, q: Progress, run: string, item: string, w: ItemWorld, ok: bool) {
    && (if Attempted(p, w) then
          q.attempts == p.attempts +
            [Attempt(item, w.url.value.value.value, p.now + w.checkDelay + w.attemptDelay, w.verdict)]
        else q.attempts == p.attempts)
    && (ok <==> !ItemFails(p, w))
    && (!ok ==> q.updates == p.updates && q.rows == p.rows)
    && (ok ==>
          && |q.updates| == |p.updates| + 1 && p.updates <= q.updates
          && ItemWritten(p, q.updates[|p.updates|], run, item, w)
          && q.rows == WithRow(p.rows, q.updates[|p.updates|]))
  }

  ghost predicate ItemWritten(p: Progress, u: Update, run: string, item: string, w: ItemWorld) {
    && u.Of(run, item)
    && (if Attempted(p, w) then Judged(w.verdict, u) && u.attempt == Some(|p.attempts|)
        else SkipReason(p, w, u.verdict) && u.status == Untestable && !u.marked && u.attempt == None)
  }

  /**
   Every item that the worker came to was handled by the state it met; the last
   of them failed if the worker stopped there.
   */
  ghost predicate AllHandled(p: Progress, run: string, items: seq<string>, world: nat -> ItemWorld, done: nat) {
    && done <= |items|
    && (forall i :: 0 <= i < done ==> HandledAt(p, run, items, world, i, true))
    && (done < |items| ==> HandledAt(p, run, items, world, done, false))
  }

  ghost predicate HandledAt(p: Progress, run: string, items: seq<string>, world: nat -> ItemWorld, i: nat, ok: bool)
    requires i < |items|
  {
    ItemHandled(AfterItems(p, run, items, world, i).0, AfterItems(p, run, items, world, i + 1).0,
                run, items[i], world(i), ok)
  }

  /** The rows with the item's overwritten; a row that is not there is not made. */
  function WithRow(rows: map<(string, string), Row>, u: Update): map<(string, string), Row> {
    map k | k in rows :: if k == (u.run, u.item) then Row(Some(u.verdict), u.status, u.marked) else rows[k]
  }

  lemma {:induction false} StrikesCounted(attempts: seq<Attempt>, host: string)
    ensures Strikes(attempts, host) == |StrikeAttempts(attempts, host)|
  {
    if attempts != [] {
      var init, last := attempts[..|attempts| - 1], attempts[|attempts| - 1];
      StrikesCounted(init, host);
      var before, all := StrikeAttempts(init, host), StrikeAttempts(attempts, host);
      if last.host == host && last.verdict.Some? && IsStrike(last.verdict.value) {
        assert all == before + {|attempts| - 1};
      } else {
        assert all == before;
      }
    }
  }

  lemma {:induction false} RestedIff(attempts: seq<Attempt>, host: string, now: nat, check: nat)
    requires InTimeOrder(attempts, now) && now <= check
    ensures Rested(attempts, host, check) <==> !TooSoon(attempts, host, check)
  {
    LastAttemptIsLatest(attempts, host, now);
    LastAttemptMember(attempts, host);
  }

  /** What handling an item does, told from the history alone. */
  lemma {:induction false} ItemIsHandled(p: Progress, run: string, item: string, w: ItemWorld)
    requires InTimeOrder(p.attempts, p.now)
    ensures var (q, ok) := AfterItem(p, run, item, w); ItemHandled(p, q, run, item, w, ok)
  {
    hide InTimeOrder, Strikes, TooSoon, StrikeAttempts, Rested;
    if HasHost(w) {
      var host := w.url.value.value.value;
      StrikesCounted(p.attempts, host);
      RestedIff(p.attempts, host, p.now, p.now + w.checkDelay);
    }
  }

  lemma {:induction false} ItemKeepsOrder(p: Progress, run: string, item: string, w: ItemWorld)
    requires InTimeOrder(p.attempts, p.now)
    ensures var q := AfterItem(p, run, item, w).0; InTimeOrder(q.attempts, q.now)
  {
    hide Strikes, TooSoon;
  }

  lemma {:induction false} WorkerHandles(p: Progress, run: string, items: seq<string>, world: nat -> ItemWorld, n: nat)
    requires InTimeOrder(p.attempts, p.now) && n <= |items|
    ensures var (q, done) := AfterItems(p, run, items, world, n);
            && InTimeOrder(q.attempts, q.now)
            && (forall i :: 0 <= i < done ==> HandledAt(p, run, items, world, i, true))
            && (done < n ==> HandledAt(p, run, items, world, done, false))
  {
    hide InTimeOrder, AfterItem, ItemHandled;
    if n > 0 {
      WorkerHandles(p, run, items, world, n - 1);
      var (before, done) := AfterItems(p, run, items, world, n - 1);
      if done == n - 1 {
        ItemIsHandled(before, run, items[n - 1], world(n - 1));
        ItemKeepsOrder(before, run, items[n - 1], world(n - 1));
        assert HandledAt(p, run, items, world, n - 1, AfterItems(p, run, items, world, n).1 == n);
      }
      hide HandledAt;
    }
  }

  // ------------------------------------------------------------------ the engine

  class Pass2Engine {
    var hostLastAttempt: map<string, nat>
    var hostStrikeCount: map<string, nat>

    constructor ()
      ensures hostLastAttempt == map[] && hostStrikeCount == map[]
    {
      hostLastAttempt := map[];
      hostStrikeCount := map[];
    }

    predicate IsBlacklisted(host: string)
      reads this
    {
      host in hostStrikeCount && hostStrikeCount[host] >= HOST_BLACKLIST_THRESHOLD
    }

    /** The wait that is left, or `None` when an attempt is free to proceed. */
    function RateLimitRemaining(host: string, now: nat): (r: Option<nat>)
      reads this
      // the wait ends when the last attempt is 300 seconds old
      ensures host in hostLastAttempt && now >= hostLastAttempt[host] ==>
                forall wait: nat :: r == Some(wait) <==> wait > 0 && now + wait == hostLastAttempt[host] + 300
      ensures host in hostLastAttempt && now < hostLastAttempt[host] ==> r == Some(300)
      ensures host !in hostLastAttempt ==> r == None
    {
      if host !in hostLastAttempt then None
      else
        // a later stamp than `now` reads as no time elapsed
        var elapsed: nat := if now >= hostLastAttempt[host] then now - hostLastAttempt[host] else 0;
        if elapsed < RATE_LIMIT_PER_HOST then Some(RATE_LIMIT_PER_HOST - elapsed) else None
    }

    method RecordAttempt(host: string, now: nat)
      modifies this`hostLastAttempt
      ensures hostLastAttempt == old(hostLastAttempt)[host := now]
    {
      hostLastAttempt := hostLastAttempt[host := now];
    }

    method RecordStrike(host: string)
      modifies this`hostStrikeCount
      ensures hostStrikeCount == old(hostStrikeCount)[host := CountOf(old(hostStrikeCount), host) + 1]
    {
      var count := if host in hostStrikeCount then hostStrikeCount[host] else 0;
      hostStrikeCount := hostStrikeCount[host := count + 1];
    }
  }

  // ------------------------------------------------------------------ the worker

  /** A marked row comes from an attempt on that item judged a failure, and only from one. */
  ghost predicate Grounded(u: Update, attempts: seq<Attempt>) {
    && (u.attempt.Some? ==> u.attempt.value < |attempts| && attempts[u.attempt.value].item == u.item)
    && (u.marked <==> u.attempt.Some? && attempts[u.attempt.value].verdict == Some(Failure))
  }

  /** The engine's maps hold each host's last attempt and strikes. */
  ghost predicate Summarise(last: map<string, nat>, strikes: map<string, nat>, attempts: seq<Attempt>) {
    && (forall h :: h in last <==> LastAttempt(attempts, h).Some?)
    && (forall h :: h in last ==> LastAttempt(attempts, h) == Some(last[h]))
    && (forall h :: CountOf(strikes, h) == Strikes(attempts, h))
  }

  function CountOf(strikes: map<string, nat>, host: string): nat {
    if host in strikes then strikes[host] else 0
  }

  lemma {:induction false} SummaryGrows(last: map<string, nat>, strikes: map<string, nat>, attempts: seq<Attempt>,
                                        a: Attempt)
    requires Summarise(last, strikes, attempts)
    ensures var struck := a.verdict.Some? && IsStrike(a.verdict.value);
            Summarise(last[a.host := a.at],
                      if struck then strikes[a.host := CountOf(strikes, a.host) + 1] else strikes,
                      attempts + [a])
  {
    hide LastAttempt, Strikes, IsStrike;
    HistoryStep(attempts, a);
  }

  class Orchestrator {
    const pass2: Pass2Engine
    var rows: map<(string, string), Row>
    var now: nat
    ghost var attempts: seq<Attempt>
    ghost var updates: seq<Update>

    constructor (initial: map<(string, string), Row>)
      ensures Valid() && fresh(pass2) && rows == initial && attempts == [] && updates == []
    {
      rows := initial;
      now := 0;
      attempts := [];
      updates := [];
      pass2 := new Pass2Engine();
    }

    ghost function View(): Progress
      reads this
    {
      Progress(now, rows, attempts, updates)
    }

    /** The maps summarise the attempts, which respect both gates; updates are grounded. */
    ghost predicate Valid()
      reads this, pass2
    {
      && PoliteHistory(attempts, now)
      && Summarise(pass2.hostLastAttempt, pass2.hostStrikeCount, attempts)
      && (forall i :: 0 <= i < |updates| ==> Grounded(updates[i], attempts))
    }

    /** Overwrites the item's row if it exists. */
    method UpdatePass2Result(run: string, item: string, verdict: Verdict, status: Status, marked: bool, dbOk: bool,
                             ghost attempt: Option<nat>)
      returns (ok: bool)
      requires Valid() && Grounded(Update(run, item, verdict, status, marked, attempt), attempts)
      modifies this`rows, this`updates
      ensures Valid() && ok == dbOk
      ensures (View(), ok) == AfterUpdate(old(View()), Update(run, item, verdict, status, marked, attempt), dbOk)
    {
      if !dbOk {
        return false;
      }
      if (run, item) in rows {
        rows := rows[(run, item) := Row(Some(verdict), status, marked)];
      }
      updates := updates + [Update(run, item, verdict, status, marked, attempt)];
      return true;
    }

    /** The attempt itself: recorded before it is judged, struck if the verdict says so. */
    method AttemptLogin(item: string, host: string, w: ItemWorld, ghost check: nat) returns (u: Option<Verdict>)
      requires Valid() && check == now
      requires !pass2.IsBlacklisted(host) && pass2.RateLimitRemaining(host, now) == None
      modifies this`now, this`attempts, pass2
      ensures Valid() && u == w.verdict
      ensures View() == AfterAttempt(old(View()), item, host, w)
    {
      hide PoliteHistory, LastAttempt, Strikes, Summarise, Grounded, IsStrike;
      GatesRead(host);
      PoliteReads(attempts, host, check);
      now := now + w.attemptDelay;
      ghost var a := Attempt(item, host, now, w.verdict);
      PoliteGrows(attempts, check, check, a);
      SummaryGrows(pass2.hostLastAttempt, pass2.hostStrikeCount, attempts, a);
      GroundedGrows(updates, attempts, a);
      pass2.RecordAttempt(host, now);
      u := w.verdict;
      if u.Some? && IsStrike(u.value) {
        pass2.RecordStrike(host);
      }
      attempts := attempts + [a];
    }

    lemma InOrder()
      requires Valid()
      ensures InTimeOrder(attempts, now)
    {
    }

    method Wait(delay: nat)
      requires Valid()
      modifies this`now
      ensures Valid() && now == old(now) + delay
    {
      hide PoliteHistory, LastAttempt, Strikes, Grounded;
      PoliteLater(attempts, now, now + delay);
      now := now + delay;
    }

    /** The engine's two gates say what the history says. */
    lemma GatesRead(host: string)
      requires Valid()
      ensures pass2.IsBlacklisted(host) <==> |StrikeAttempts(attempts, host)| >= 2
      ensures pass2.IsBlacklisted(host) <==> Strikes(attempts, host) >= 2
      ensures pass2.RateLimitRemaining(host, now).Some? <==> !Rested(attempts, host, now)
      ensures pass2.RateLimitRemaining(host, now).Some? <==> TooSoon(attempts, host, now)
    {
      hide PoliteHistory, LastAttempt, Strikes, Grounded;
      StrikesCounted(attempts, host);
      InOrder();
      RestedIff(attempts, host, now, now);
      PoliteReads(attempts, host, now);
      assert Strikes(attempts, host) == CountOf(pass2.hostStrikeCount, host);
    }

    /** An item that no login is attempted for. */
    method Untested(run: string, item: string, verdict: Verdict, dbOk: bool) returns (ok: bool)
      requires Valid()
      modifies this`rows, this`updates
      ensures Valid() && ok == dbOk
      ensures (View(), ok) == AfterUpdate(old(View()), Update(run, item, verdict, Untestable, false, None), dbOk)
    {
      hide Valid;
      ok := UpdatePass2Result(run, item, verdict, Untestable, false, dbOk, None);
    }

    /** An item past both gates: attempt, judge, update. */
    method JudgeItem(run: string, item: string, host: string, w: ItemWorld) returns (ok: bool)
      requires Valid()
      requires !pass2.IsBlacklisted(host) && pass2.RateLimitRemaining(host, now) == None
      modifies this`rows, this`now, this`attempts, this`updates, pass2
      ensures Valid() && ok == w.dbOk
      ensures (View(), ok) == AfterUpdate(AfterAttempt(old(View()), item, host, w),
                                          UpdateAfter(run, item, w.verdict, |old(attempts)|), w.dbOk)
    {
      hide Valid;
      var verdict := AttemptLogin(item, host, w, now);
      ghost var k := |attempts| - 1;
      assert attempts[k].item == item;
      if verdict.None? {
        ok := UpdatePass2Result(run, item, BrowserCrash, Untestable, false, w.dbOk, Some(k));
        return;
      }
      var (status, marked) := MapVerdictToStatus(verdict.value);
      ok := UpdatePass2Result(run, item, verdict.value, status, marked, w.dbOk, Some(k));
    }

    /** One item of the list; `false` when the vault or the database fails. */
    method RunItem(run: string, item: string, w: ItemWorld) returns (ok: bool)
      requires Valid()
      modifies this`rows, this`now, this`attempts, this`updates, pass2
      ensures Valid()
      ensures (View(), ok) == AfterItem(old(View()), run, item, w)
    {
      hide Valid, FailedAttempt, LastAttempt, Strikes;
      if w.url.VaultError? {
        return false;
      }
      if w.url.value.None? || w.url.value.value.None? {
        ok := Untested(run, item, NoLoginForm, w.dbOk);
        return;
      }
      var host := w.url.value.value.value;
      Wait(w.checkDelay);
      GatesRead(host);
      if pass2.IsBlacklisted(host) {
        ok := Untested(run, item, Captcha, w.dbOk);
        return;
      }
      if pass2.RateLimitRemaining(host, now).Some? {
        ok := Untested(run, item, Unknown, w.dbOk);
        return;
      }
      if !w.usernameOk || w.hasPassword.VaultError? {
        return false;
      }
      if !w.hasPassword.value {
        ok := Untested(run, item, NoLoginForm, w.dbOk);
        return;
      }
      ok := JudgeItem(run, item, host, w);
    }

    /**
     Drives each item in turn, as `AfterItems` says: each is attempted and written
     as `ItemHandled` tells from what it meets. Without vault or database errors
     every item gets exactly one update, in order. A listed item whose row ends
     marked for deletion was attempted by this worker and judged a failure; other
     rows stay.
     */
    method Pass2RunWorker(run: string, items: seq<string>, world: nat -> ItemWorld) returns (ok: bool, done: nat)
      requires Valid()
      modifies this`rows, this`now, this`attempts, this`updates, pass2
      ensures Valid()
      ensures (View(), done) == AfterItems(old(View()), run, items, world, |items|)
      ensures ok <==> done == |items|
      ensures (forall i :: 0 <= i < |items| ==> NoErrors(world(i))) ==> ok
      ensures Worked(old(View()), View(), run, items[..done])
      ensures AllHandled(old(View()), run, items, world, done)
    {
      hide AfterItem, NoErrors, HandledAt, Worked, Valid;
      InOrder();
      WorkerHandles(View(), run, items, world, |items|);
      WorkerLaws(View(), run, items, world, |items|);
      for i := 0 to |items|
        invariant Valid() && (View(), i) == AfterItems(old(View()), run, items, world, i)
      {
        var fine := RunItem(run, items[i], world(i));
        if !fine {
          StopsHere(old(View()), run, items, world, i + 1, |items|);
          return false, i;
        }
      }
      return true, |items|;
    }
  }

  /** What the history's politeness and the gates mean for one host. */
  lemma PoliteReads(attempts: seq<Attempt>, host: string, now: nat)
    requires PoliteHistory(attempts, now)
    ensures LastAttempt(attempts, host).Some? ==> LastAttempt(attempts, host).value <= now
  {
    LastAttemptMember(attempts, host);
  }

  lemma {:induction false} LastAttemptMember(attempts: seq<Attempt>, host: string)
    ensures LastAttempt(attempts, host).Some? ==>
              exists i :: 0 <= i < |attempts| && attempts[i].host == host
                          && attempts[i].at == LastAttempt(attempts, host).value
  {
    if attempts != [] && attempts[|attempts| - 1].host != host {
      var init := attempts[..|attempts| - 1];
      LastAttemptMember(init, host);
      if LastAttempt(attempts, host).Some? {
        var i :| 0 <= i < |init| && init[i].host == host && init[i].at == LastAttempt(init, host).value;
        assert attempts[i] == init[i];
      }
    }
  }

  lemma PoliteLater(attempts: seq<Attempt>, now: nat, later: nat)
    requires PoliteHistory(attempts, now) && now <= later
    ensures PoliteHistory(attempts, later)
  {
  }

  lemma GroundedGrows(updates: seq<Update>, attempts: seq<Attempt>, a: Attempt)
    requires forall i :: 0 <= i < |updates| ==> Grounded(updates[i], attempts)
    ensures forall i :: 0 <= i < |updates| ==> Grounded(updates[i], attempts + [a])
  {
  }

  lemma FailedAttemptKept(before: seq<Attempt>, after: seq<Attempt>, from: nat)
    requires before <= after
    ensures forall item :: FailedAttempt(before, from, item) ==> FailedAttempt(after, from, item)
  {
    forall item | FailedAttempt(before, from, item)
      ensures FailedAttempt(after, from, item)
    {
      var k :| from <= k < |before| && before[k].item == item && before[k].verdict == Some(Failure);
      assert after[k] == before[k];
    }
  }

  lemma FailedAttemptEarlier(attempts: seq<Attempt>, from: nat, later: nat)
    requires from <= later
    ensures forall item :: FailedAttempt(attempts, later, item) ==> FailedAttempt(attempts, from, item)
  {
  }
}
