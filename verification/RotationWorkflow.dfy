/**
 The password-rotation state machine: eighteen steps, three attempts each, a
 thirty-second limit per step and a five-minute limit per run, with a generated
 password carried from step to step.

 What the browser, the vision model, the vault and the clock do during one step
 execution is an `Answer`. A failed or cut-off step may or may not have had its
 side effect. A ghost trace records the effects.
 */
module RotationWorkflow {
  import opened Wrappers

  datatype WorkflowStep =
    | NavigateToLogin
    | IdentifyLoginForm
    | FillUsername
    | FillPassword
    | ClickLogin
    | Check2FA
    | Handle2FA
    | NavigateToPasswordChange
    | IdentifyPasswordForm
    | FillCurrentPassword
    | GenerateNewPassword
    | FillNewPassword
    | FillConfirmPassword
    | ClickSave
    | VerifySuccess
    | UpdateVault
    | Done
    | Failed
  {
    predicate Terminal() {
      Done? || Failed?
    }
  }

  datatype Verdict = Confirmed | Rejected | Unclear

  /** The outside world during one step execution. */
  datatype Answer =
    | Succeeds(needs2fa: bool, verdict: Verdict, generated: string)
    | Fails(reached: bool)
    | StepTimesOut(reached: bool)
    | RunTimesOut(reached: bool)

  /** Effects on the site and the vault, with whether the step saw them complete. */
  datatype Effect =
    | Generated(pw: string)
    | FilledNew(pw: string, completed: bool)
    | FilledConfirm(pw: string, completed: bool)
    | Saved(completed: bool)
    | VerifiedChange
    | VaultWritten(pw: string, acknowledged: bool)

  datatype StepResult = Next(step: WorkflowStep) | StepErr | MissingPassword | StepTimeout | RunTimeout

  datatype State = State(step: WorkflowStep, attempts: nat, newPassword: Option<string>, trace: seq<Effect>)

  const MAX_STEP_ATTEMPTS := 3

  // --------------------------------------------------------------- transitions

  function Rank(s: WorkflowStep): (r: nat)
    ensures r <= 16
    ensures r == 16 <==> s.Terminal()
  {
    match s
    case NavigateToLogin => 0
    case IdentifyLoginForm => 1
    case FillUsername => 2
    case FillPassword => 3
    case ClickLogin => 4
    case Check2FA => 5
    case Handle2FA => 6
    case NavigateToPasswordChange => 7
    case IdentifyPasswordForm => 8
    case FillCurrentPassword => 9
    case GenerateNewPassword => 10
    case FillNewPassword => 11
    case FillConfirmPassword => 12
    case ClickSave => 13
    case VerifySuccess => 14
    case UpdateVault => 15
    case Done => 16
    case Failed => 16
  }

  /** Where a step that succeeds leads; `None` when the answer makes it fail instead. */
  function Successor(s: WorkflowStep, needs2fa: bool, verdict: Verdict): Option<WorkflowStep> {
    match s
    case NavigateToLogin => Some(IdentifyLoginForm)
    case IdentifyLoginForm => Some(FillUsername)
    case FillUsername => Some(FillPassword)
    case FillPassword => Some(ClickLogin)
    case ClickLogin => Some(Check2FA)
    case Check2FA => Some(if needs2fa then Handle2FA else NavigateToPasswordChange)
    case Handle2FA => Some(NavigateToPasswordChange)
    case NavigateToPasswordChange => Some(IdentifyPasswordForm)
    case IdentifyPasswordForm => Some(FillCurrentPassword)
    case FillCurrentPassword => Some(GenerateNewPassword)
    case GenerateNewPassword => Some(FillNewPassword)
    case FillNewPassword => Some(FillConfirmPassword)
    case FillConfirmPassword => Some(ClickSave)
    case ClickSave => Some(VerifySuccess)
    case VerifySuccess =>
      (match verdict
       case Confirmed => Some(UpdateVault)
       case Rejected => Some(Failed)
       case Unclear => None)
    case UpdateVault => Some(Done)
    case Done => Some(Done)
    case Failed => Some(Failed)
  }

  /** The effect of a step on the outside, if it has one worth recording. */
  function EffectOf(s: WorkflowStep, pw: string, completed: bool): seq<Effect> {
    match s
    case FillNewPassword => [FilledNew(pw, completed)]
    case FillConfirmPassword => [FilledConfirm(pw, completed)]
    case ClickSave => [Saved(completed)]
    case UpdateVault => [VaultWritten(pw, completed)]
    case _ => []
  }

  predicate NeedsPassword(s: WorkflowStep) {
    s.FillNewPassword? || s.FillConfirmPassword? || s.UpdateVault?
  }

  /**
   One step execution: the new password slot, the trace and the result.
   Generating is synchronous, so it completes whatever the answer says.
   */
  function Execute(st: State, a: Answer): (State, StepResult) {
    if st.step.GenerateNewPassword? then
      var pw := if a.Succeeds? then a.generated else "";
      (st.(newPassword := Some(pw), trace := st.trace + [Generated(pw)]), Next(FillNewPassword))
    else if NeedsPassword(st.step) && st.newPassword.None? then (st, MissingPassword)
    else
      var pw := st.newPassword.GetOr("");
      match a
      case Succeeds(needs2fa, verdict, _) =>
        (match Successor(st.step, needs2fa, verdict)
         case None => (st, StepErr)
         case Some(next) =>
           var effect := if st.step.VerifySuccess? && next.UpdateVault? then [VerifiedChange]
                         else EffectOf(st.step, pw, true);
           (st.(trace := st.trace + effect,
                newPassword := if st.step.UpdateVault? then None else st.newPassword),
            Next(next)))
      case Fails(reached) => (CutShort(st, pw, reached), StepErr)
      case StepTimesOut(reached) => (CutShort(st, pw, reached), StepTimeout)
      case RunTimesOut(reached) => (CutShort(st, pw, reached), RunTimeout)
  }

  function CutShort(st: State, pw: string, reached: bool): State {
    if reached then st.(trace := st.trace + EffectOf(st.step, pw, false)) else st
  }

  /** The loop's bookkeeping after a step execution. */
  function Settle(st: State, r: StepResult): State {
    match r
    case Next(s) => st.(step := s, attempts := if s == st.step then st.attempts else 0)
    case RunTimeout => st.(step := Failed)
    case _ =>
      if st.attempts + 1 >= MAX_STEP_ATTEMPTS then st.(step := Failed, attempts := st.attempts + 1)
      else st.(attempts := st.attempts + 1)
  }

  function Tick(st: State, a: Answer): State {
    var (after, r) := Execute(st, a);
    Settle(after, r)
  }

  // ---------------------------------------------------------------- termination

  predicate Bounded(st: State) {
    !st.step.Terminal() ==> st.attempts <= 2 && (st.step.GenerateNewPassword? ==> st.attempts == 0)
  }

  /** How many step executions can still follow; generating never needs a second one. */
  function Remaining(st: State): nat
    requires Bounded(st)
  {
    if st.step.Terminal() then 0
    else 3 * (16 - Rank(st.step)) - st.attempts - if Rank(st.step) <= 10 then 2 else 0
  }

  /** Every execution uses up at least one of the remaining ones. */
  lemma {:induction false} TickUsesOne(st: State, a: Answer)
    requires Bounded(st) && !st.step.Terminal()
    ensures Bounded(Tick(st, a)) && Remaining(Tick(st, a)) < Remaining(st)
  {
    SuccessAdvances(st, a);
    ExecuteStays(st, a);
    TenthIsGenerate(st.step);
    TenthIsGenerate(Tick(st, a).step);
    hide Execute, Rank;
  }

  /** Moving on and counting attempts is not the execution's business; generating always leads on. */
  lemma ExecuteStays(st: State, a: Answer)
    ensures Execute(st, a).0.step == st.step && Execute(st, a).0.attempts == st.attempts
    ensures st.step.GenerateNewPassword? ==> Execute(st, a).1.Next?
  {
  }

  /** A step that succeeds leads strictly forward in the step order. */
  lemma {:induction false} SuccessAdvances(st: State, a: Answer)
    requires !st.step.Terminal()
    ensures Execute(st, a).1.Next? ==> Rank(Execute(st, a).1.step) > Rank(st.step)
  {
  }

  datatype Final = Final(state: State, executions: nat, ok: bool)

  /** `run` against a world that answers the `n`-th step execution with `world(n)`. */
  function RunFrom(st: State, world: nat -> Answer, n: nat): Final
    requires Bounded(st)
    decreases Remaining(st)
  {
    if st.step.Terminal() then Final(st, n, st.step.Done?)
    else
      TickUsesOne(st, world(n));
      RunFrom(Tick(st, world(n)), world, n + 1)
  }

  /** A run from a state is its next execution, then a run from there. */
  lemma {:induction false} RunUnfolds(st: State, world: nat -> Answer, n: nat)
    requires Bounded(st)
    ensures st.step.Terminal() ==> RunFrom(st, world, n) == Final(st, n, st.step.Done?)
    ensures !st.step.Terminal() ==>
              && Bounded(Tick(st, world(n)))
              && Remaining(Tick(st, world(n))) < Remaining(st)
              && RunFrom(st, world, n) == RunFrom(Tick(st, world(n)), world, n + 1)
  {
    if !st.step.Terminal() {
      TickUsesOne(st, world(n));
    }
  }

  const START := State(NavigateToLogin, 0, None, [])

  /** At most 46 step executions under every pattern of failures and timeouts. */
  lemma {:induction false} ExecutionsBounded(st: State, world: nat -> Answer, n: nat)
    requires Bounded(st)
    ensures RunFrom(st, world, n).executions <= n + Remaining(st)
    ensures Remaining(START) == 46
    ensures RunFrom(st, world, n).state.step.Terminal()
    decreases Remaining(st)
  {
    assert Remaining(START) == 46;
    hide Tick, Rank;
    if !st.step.Terminal() {
      TickUsesOne(st, world(n));
      ExecutionsBounded(Tick(st, world(n)), world, n + 1);
    }
  }

  /** Two failures before every success, except where a failure cannot happen. */
  function SlowWorld(n: nat): Answer {
    if n == 30 || (n < 30 && n % 3 == 2) || (n > 30 && n % 3 == 0) then Succeeds(true, Confirmed, "")
    else Fails(false)
  }

  /** The execution at which the slow world first reaches a rank. */
  function SlowStart(rank: nat): nat {
    if rank <= 10 then 3 * rank else 3 * rank - 2
  }

  lemma {:induction false} SlowRun(st: State)
    requires Bounded(st) && st.attempts == 0 && !st.step.Failed?
    requires Rank(st.step) > 10 && st.step != Done ==> st.newPassword.Some?
    ensures RunFrom(st, SlowWorld, SlowStart(Rank(st.step))).executions == 46
    ensures RunFrom(st, SlowWorld, SlowStart(Rank(st.step))).ok
    decreases Remaining(st)
  {
    hide RunFrom, Tick, Remaining, SlowWorld;
    var n := SlowStart(Rank(st.step));
    RunUnfolds(st, SlowWorld, n);
    if !st.step.Terminal() {
      SlowTicks(st, n);
      var next := Tick(st, SlowWorld(n));
      if st.step.GenerateNewPassword? {
        SlowRun(next);
      } else {
        RunUnfolds(next, SlowWorld, n + 1);
        var third := Tick(next, SlowWorld(n + 1));
        RunUnfolds(third, SlowWorld, n + 2);
        SlowRun(Tick(third, SlowWorld(n + 2)));
      }
    }
  }

  /** In the slow world a step fails twice and then leads on by one rank. */
  lemma {:induction false} SlowTicks(st: State, n: nat)
    requires Bounded(st) && st.attempts == 0 && !st.step.Terminal() && n == SlowStart(Rank(st.step))
    requires Rank(st.step) > 10 ==> st.newPassword.Some?
    ensures st.step.GenerateNewPassword? ==> Advanced(st.step, Tick(st, SlowWorld(n)))
    ensures !st.step.GenerateNewPassword? ==>
              && Tick(st, SlowWorld(n)) == st.(attempts := 1)
              && Tick(st.(attempts := 1), SlowWorld(n + 1)) == st.(attempts := 2)
              && Advanced(st.step, Tick(st.(attempts := 2), SlowWorld(n + 2)))
  {
    hide Tick, Rank, Advanced;
    SlowAnswers(Rank(st.step));
    TenthIsGenerate(st.step);
    SuccessTick(st);
    if !st.step.GenerateNewPassword? {
      FailureTick(st);
      FailureTick(st.(attempts := 1));
      SuccessTick(st.(attempts := 2));
    }
  }

  ghost predicate Advanced(s: WorkflowStep, after: State) {
    && Rank(after.step) == Rank(s) + 1 && after.attempts == 0 && !after.step.Failed?
    && (after.step != Done && Rank(after.step) > 10 ==> after.newPassword.Some?)
  }

  lemma TenthIsGenerate(s: WorkflowStep)
    ensures Rank(s) == 10 <==> s.GenerateNewPassword?
  {
  }

  lemma SlowAnswers(rank: nat)
    requires rank < 16
    ensures var n := SlowStart(rank);
            if rank == 10 then SlowWorld(n) == Succeeds(true, Confirmed, "")
            else SlowWorld(n) == SlowWorld(n + 1) == Fails(false) && SlowWorld(n + 2) == Succeeds(true, Confirmed, "")
  {
  }

  lemma FailureTick(st: State)
    requires st.attempts < 2 && !st.step.GenerateNewPassword?
    requires NeedsPassword(st.step) ==> st.newPassword.Some?
    ensures Tick(st, Fails(false)) == st.(attempts := st.attempts + 1)
  {
  }

  lemma SuccessTick(st: State)
    requires !st.step.Terminal() && (Rank(st.step) > 10 ==> st.newPassword.Some?)
    ensures Advanced(st.step, Tick(st, Succeeds(true, Confirmed, "")))
    ensures NeedsPassword(st.step) ==> st.newPassword.Some?
  {
  }

  /** The bound is reached, by a run that succeeds. */
  lemma {:induction false} BoundIsTight()
    ensures RunFrom(START, SlowWorld, 0).executions == 46 && RunFrom(START, SlowWorld, 0).ok
  {
    SlowRun(START);
  }

  /** Three failures or timeouts of one step in a row fail the run. */
  lemma {:induction false} GivesUpAfterThree(st: State, world: nat -> Answer, n: nat)
    requires Bounded(st) && st.attempts == 0 && !st.step.Terminal() && !st.step.GenerateNewPassword?
    requires NeedsPassword(st.step) ==> st.newPassword.Some?
    requires forall k :: n <= k < n + 3 ==> world(k).Fails? || world(k).StepTimesOut?
    ensures RunFrom(st, world, n).executions == n + 3
    ensures RunFrom(st, world, n).state.step.Failed? && !RunFrom(st, world, n).ok
  {
    var st1 := Tick(st, world(n));
    var st2 := Tick(st1, world(n + 1));
    var st3 := Tick(st2, world(n + 2));
    RunUnfolds(st, world, n);
    RunUnfolds(st1, world, n + 1);
    RunUnfolds(st2, world, n + 2);
    hide RunFrom, Remaining;
    FailedTick(st, world(n));
    FailedTick(st1, world(n + 1));
    FailedTick(st2, world(n + 2));
    RunUnfolds(st3, world, n + 3);
  }

  /**
   A rejected verification ends the run at once: not ok, in `Failed`, and with
   nothing done to the site or the vault any more.
   */
  lemma {:induction false} RejectionEndsRun(st: State, world: nat -> Answer, n: nat)
    requires Bounded(st) && st.step.VerifySuccess?
    requires world(n).Succeeds? && world(n).verdict.Rejected?
    ensures var f := RunFrom(st, world, n);
            && f.executions == n + 1 && !f.ok && f.state.step.Failed?
            && f.state.trace == st.trace && f.state.newPassword == st.newPassword
  {
    RunUnfolds(st, world, n);
    assert st.trace + [] == st.trace;
    RunUnfolds(Tick(st, world(n)), world, n + 1);
  }

  /** An answer that cannot be read as a verification counts as one failed attempt. */
  lemma {:induction false} UnclearIsRetried(st: State, a: Answer)
    requires st.step.VerifySuccess? && st.attempts <= 2 && a.Succeeds? && a.verdict.Unclear?
    ensures Tick(st, a) == if st.attempts == 2 then st.(step := Failed, attempts := 3)
                           else st.(attempts := st.attempts + 1)
  {
  }

  /** A terminal step stays where it is. */
  lemma TerminalStays(st: State, a: Answer)
    requires st.step.Terminal() && a.Succeeds?
    ensures Execute(st, a) == (st, Next(st.step))
  {
    assert st.trace + [] == st.trace;
  }

  /** A vault write that fails after it got through is on record, and the password is kept for the next attempt. */
  lemma FailedWriteMayLand(st: State, a: Answer)
    requires st.step.UpdateVault? && st.newPassword.Some? && st.attempts < 2
    requires (a.Fails? || a.StepTimesOut?) && a.reached
    ensures Tick(st, a) == st.(attempts := st.attempts + 1,
                               trace := st.trace + [VaultWritten(st.newPassword.value, false)])
  {
  }

  /** The run's own timer ends it at once, in whatever step that waits for the outside. */
  lemma {:induction false} TimeoutEndsRun(st: State, world: nat -> Answer, n: nat)
    requires Bounded(st) && !st.step.Terminal() && !st.step.GenerateNewPassword?
    requires NeedsPassword(st.step) ==> st.newPassword.Some?
    requires world(n).RunTimesOut?
    ensures var f := RunFrom(st, world, n);
            f.executions == n + 1 && !f.ok && f.state.step.Failed? && st.trace <= f.state.trace
  {
    RunUnfolds(st, world, n);
    RunUnfolds(Tick(st, world(n)), world, n + 1);
  }

  /** The state that the `k`-th execution of a run starts from; the final one when there is none. */
  function StateAt(st: State, world: nat -> Answer, k: nat): (r: State)
    requires Bounded(st)
    ensures Bounded(r)
  {
    if k == 0 then st
    else
      var before := StateAt(st, world, k - 1);
      if before.step.Terminal() then before
      else
        TickUsesOne(before, world(k - 1));
        Tick(before, world(k - 1))
  }

  /** A run from a later state of the run is the rest of the run. */
  lemma {:induction false} RunFromStateAt(st: State, world: nat -> Answer, k: nat)
    requires Bounded(st) && k <= RunFrom(st, world, 0).executions
    ensures RunFrom(StateAt(st, world, k), world, k) == RunFrom(st, world, 0)
  {
    hide RunFrom, Tick, Remaining;
    if k > 0 {
      var before := StateAt(st, world, k - 1);
      RunFromStateAt(st, world, k - 1);
      RunUnfolds(before, world, k - 1);
    }
  }

  /**
   In a run that succeeds no verification was rejected and no step that waits
   for the outside ran into the run's timer.
   */
  lemma {:induction false} SuccessSawNoRejection(world: nat -> Answer, k: nat)
    requires RunFrom(START, world, 0).ok && k < RunFrom(START, world, 0).executions
    ensures var st := StateAt(START, world, k);
            && !(st.step.VerifySuccess? && world(k).Succeeds? && world(k).verdict.Rejected?)
            && !(!st.step.GenerateNewPassword? && world(k).RunTimesOut?)
  {
    hide RunFrom, Tick, Remaining, SafeTrace, InOrder, Milestones;
    var st := StateAt(START, world, k);
    RunFromStateAt(START, world, k);
    RunUnfolds(st, world, k);
    var _ := StateKeepsInvariant(world, k);
    if st.step.VerifySuccess? && world(k).Succeeds? && world(k).verdict.Rejected? {
      RejectionEndsRun(st, world, k);
    } else if !st.step.GenerateNewPassword? && world(k).RunTimesOut? {
      TimeoutEndsRun(st, world, k);
    }
  }

  /** Every state of a run from the start has its password where a step needs it. */
  lemma {:induction false} StateKeepsInvariant(world: nat -> Answer, k: nat) returns (pw: string)
    ensures Invariant(StateAt(START, world, k), pw)
    ensures NeedsPassword(StateAt(START, world, k).step) ==> StateAt(START, world, k).newPassword.Some?
  {
    hide SafeTrace, InOrder, Milestones, Tick, Execute;
    if k == 0 {
      EmptyTraceSafe("");
      pw := "";
    } else {
      var before := StateAt(START, world, k - 1);
      pw := StateKeepsInvariant(world, k - 1);
      if !before.step.Terminal() {
        TickKeepsInvariant(before, world(k - 1), pw);
        pw := PasswordAfter(before, world(k - 1), pw);
      }
    }
  }

  lemma FailedTick(st: State, a: Answer)
    requires st.attempts <= 2 && !st.step.Terminal() && !st.step.GenerateNewPassword?
    requires a.Fails? || a.StepTimesOut?
    ensures var after := Tick(st, a);
            && after.newPassword == st.newPassword
            && after.attempts == st.attempts + 1
            && after.step == if st.attempts == 2 then Failed else st.step
  {
  }

  // ---------------------------------------------------------------- trace safety

  /** The milestones appear in the trace in this order, other effects in between. */
  ghost predicate InOrder(ms: seq<Effect>, tr: seq<Effect>) {
    ms == [] ||
    (tr != [] &&
     var init := tr[..|tr| - 1];
     InOrder(ms, init) || (ms[|ms| - 1] == tr[|tr| - 1] && InOrder(ms[..|ms| - 1], init)))
  }

  /** What must have happened, complete and in order, before the vault is written. */
  function Milestones(pw: string): seq<Effect> {
    [Generated(pw), FilledNew(pw, true), FilledConfirm(pw, true), Saved(true), VerifiedChange]
  }

  ghost predicate Carries(e: Effect, pw: string) {
    e.Saved? || e.VerifiedChange? || e.pw == pw
  }

  /** All effects carry one password, generated once, first. */
  ghost predicate OnePassword(tr: seq<Effect>, pw: string) {
    forall k :: 0 <= k < |tr| ==> Carries(tr[k], pw) && (tr[k].Generated? <==> k == 0)
  }

  ghost predicate WritesAfterMilestones(tr: seq<Effect>, pw: string) {
    forall k :: 0 <= k < |tr| && tr[k].VaultWritten? ==> InOrder(Milestones(pw), tr[..k])
  }

  ghost predicate SafeTrace(tr: seq<Effect>, pw: string) {
    OnePassword(tr, pw) && WritesAfterMilestones(tr, pw)
  }

  /** What holds whenever the loop looks at the current step. */
  ghost predicate Invariant(st: State, pw: string) {
    && Bounded(st)
    && SafeTrace(st.trace, pw)
    && (Rank(st.step) <= 10 ==> st.trace == [] && st.newPassword == None)
    && (10 < Rank(st.step) < 16 ==>
          st.newPassword == Some(pw) && st.trace != [] && InOrder(Milestones(pw)[..Rank(st.step) - 10], st.trace))
    && (st.step.Done? ==>
          st.newPassword == None && st.trace != [] && st.trace[|st.trace| - 1] == VaultWritten(pw, true))
  }

  lemma {:induction false} InOrderGrows(ms: seq<Effect>, tr: seq<Effect>, e: Effect)
    requires InOrder(ms, tr)
    ensures InOrder(ms, tr + [e])
    ensures InOrder(ms + [e], tr + [e])
  {
    assert (tr + [e])[..|tr|] == tr;
    assert (ms + [e])[..|ms|] == ms;
  }

  /** An effect that carries the password, and a write only with its milestones, keeps a trace safe. */
  lemma {:induction false} SafeTraceGrows(tr: seq<Effect>, pw: string, e: Effect)
    requires SafeTrace(tr, pw) && tr != [] && Carries(e, pw) && !e.Generated?
    requires e.VaultWritten? ==> InOrder(Milestones(pw), tr)
    ensures SafeTrace(tr + [e], pw)
  {
    hide InOrder;
    assert (tr + [e])[..|tr|] == tr;
    forall k | 0 <= k < |tr|
      ensures (tr + [e])[k] == tr[k] && (tr + [e])[..k] == tr[..k]
    {
    }
  }

  /** The password of the state after the answer: the fresh one where one is generated. */
  ghost function PasswordAfter(st: State, a: Answer, pw: string): string {
    if st.step.GenerateNewPassword? then (if a.Succeeds? then a.generated else "") else pw
  }

  /** The milestone that completing the step of this rank reaches. */
  function MilestoneAfter(rank: nat, pw: string): Effect
    requires 11 <= rank <= 14
  {
    if rank == 11 then FilledNew(pw, true)
    else if rank == 12 then FilledConfirm(pw, true)
    else if rank == 13 then Saved(true)
    else VerifiedChange
  }

  lemma {:induction false} MilestoneOf(rank: nat, pw: string)
    requires 11 <= rank <= 14
    ensures Milestones(pw)[..rank - 9] == Milestones(pw)[..rank - 10] + [MilestoneAfter(rank, pw)]
  {
  }

  /** Every step execution keeps the invariant, whatever the world answers. */
  lemma {:induction false} TickKeepsInvariant(st: State, a: Answer, pw: string)
    requires Invariant(st, pw) && !st.step.Terminal()
    ensures Invariant(Tick(st, a), PasswordAfter(st, a, pw))
    ensures Execute(st, a).1 != MissingPassword
  {
    TickUsesOne(st, a);
    if Rank(st.step) < 10 {
      EarlyTick(st, a, pw);
    } else if Rank(st.step) == 10 {
      GenerateTick(st, a);
    } else {
      LateTick(st, a, pw);
    }
  }

  lemma {:induction false} EarlyTick(st: State, a: Answer, pw: string)
    requires Invariant(st, pw) && Rank(st.step) < 10
    ensures Invariant(Tick(st, a), pw) && Execute(st, a).1 != MissingPassword
  {
    hide InOrder, SafeTrace, Milestones, Remaining;
    TickUsesOne(st, a);
    EarlyEffects(st, a);
    hide Execute, Tick;
  }

  lemma EarlyEffects(st: State, a: Answer)
    requires Rank(st.step) < 10 && st.trace == [] && st.newPassword == None
    ensures Execute(st, a).1 != MissingPassword
    ensures var after := Tick(st, a);
            && after.trace == [] && after.newPassword == None
            && (after.step.Failed? || Rank(after.step) <= 10)
  {
  }

  lemma {:induction false} GenerateTick(st: State, a: Answer)
    requires st.step.GenerateNewPassword? && st.trace == [] && Bounded(st)
    ensures Invariant(Tick(st, a), PasswordAfter(st, a, "")) && Execute(st, a).1 != MissingPassword
  {
    var pw := PasswordAfter(st, a, "");
    GenerateLeadsOn(st, a);
    hide InOrder, SafeTrace, Milestones, Tick, Execute;
    FirstMilestone(pw);
    OneEffectIsSafe(pw);
  }

  lemma GenerateLeadsOn(st: State, a: Answer)
    requires st.step.GenerateNewPassword? && st.trace == []
    ensures Execute(st, a).1 == Next(FillNewPassword)
    ensures var pw := PasswordAfter(st, a, "");
            Tick(st, a) == State(FillNewPassword, 0, Some(pw), [Generated(pw)])
  {
    var pw := PasswordAfter(st, a, "");
    assert [] + [Generated(pw)] == [Generated(pw)];
  }

  lemma {:induction false} FirstMilestone(pw: string)
    ensures |Milestones(pw)| == 5 && InOrder(Milestones(pw)[..1], [Generated(pw)])
  {
    assert Milestones(pw)[..1] == [] + [Generated(pw)] == [Generated(pw)];
    InOrderGrows([], [], Generated(pw));
  }

  lemma OneEffectIsSafe(pw: string)
    ensures SafeTrace([Generated(pw)], pw)
  {
    hide InOrder, Milestones;
  }

  /** What the effect `e` of an execution between generating and the end can be, and where it leads. */
  ghost predicate LateEffect(st: State, after: State, e: Effect, pw: string) {
    && after.trace == st.trace + [e] && Carries(e, pw) && !e.Generated?
    && (e.VaultWritten? ==> st.step.UpdateVault?)
    && (|| after.step.Failed?
        || (after.step == st.step && after.newPassword == Some(pw))
        || (&& 11 <= Rank(st.step) <= 14 && Rank(after.step) == Rank(st.step) + 1
            && after.newPassword == Some(pw) && e == MilestoneAfter(Rank(st.step), pw))
        || (after.step.Done? && after.newPassword == None && e == VaultWritten(pw, true)))
  }

  lemma {:induction false} LateEffects(st: State, a: Answer, pw: string)
    requires 10 < Rank(st.step) < 16 && st.newPassword == Some(pw)
    ensures Execute(st, a).1 != MissingPassword
    ensures var after := Tick(st, a);
            if after.trace == st.trace then
              after.step.Failed? || (after.step == st.step && after.newPassword == Some(pw))
            else |after.trace| > |st.trace| && LateEffect(st, after, after.trace[|st.trace|], pw)
  {
  }

  lemma {:induction false} LateTick(st: State, a: Answer, pw: string)
    requires Invariant(st, pw) && 10 < Rank(st.step) < 16
    ensures Invariant(Tick(st, a), pw) && Execute(st, a).1 != MissingPassword
  {
    hide InOrder, SafeTrace, Milestones, Remaining, Execute, Tick;
    TickUsesOne(st, a);
    LateEffects(st, a, pw);
    AllMilestones(pw);
    var after := Tick(st, a);
    if after.trace != st.trace {
      var e := after.trace[|st.trace|];
      SafeTraceGrows(st.trace, pw, e);
      InOrderGrows(Milestones(pw)[..Rank(st.step) - 10], st.trace, e);
      if Rank(st.step) <= 14 {
        MilestoneOf(Rank(st.step), pw);
      }
    }
  }

  lemma AllMilestones(pw: string)
    ensures |Milestones(pw)| == 5 && Milestones(pw)[..5] == Milestones(pw)
  {
  }

  /** No execution of the run reports a missing password. */
  ghost predicate NeverMissesPassword(st: State, world: nat -> Answer, n: nat)
    requires Bounded(st)
    decreases Remaining(st)
  {
    st.step.Terminal() ||
    (Execute(st, world(n)).1 != MissingPassword &&
     (TickUsesOne(st, world(n)); NeverMissesPassword(Tick(st, world(n)), world, n + 1)))
  }

  /** The whole run keeps the invariant for the one password it generates. */
  lemma {:induction false} RunKeepsInvariant(st: State, world: nat -> Answer, n: nat, pw: string)
    returns (final: string)
    requires Invariant(st, pw)
    ensures Invariant(RunFrom(st, world, n).state, final)
    ensures NeverMissesPassword(st, world, n)
    decreases Remaining(st)
  {
    hide Execute, Tick, SafeTrace, InOrder, Milestones;
    final := pw;
    if !st.step.Terminal() {
      TickUsesOne(st, world(n));
      TickKeepsInvariant(st, world(n), pw);
      final := RunKeepsInvariant(Tick(st, world(n)), world, n + 1, PasswordAfter(st, world(n), pw));
    }
  }

  lemma {:induction false} EmptyTraceSafe(pw: string)
    ensures Invariant(START, pw)
  {
  }

  /**
   In every run, all passwords filled in or written to the vault are the one
   password generated first; every vault write comes after generate, fill-new,
   fill-confirm, save and a positive verification, complete and in that order;
   no step finds the password missing; and `true` is returned only after an
   acknowledged vault write.
   */
  lemma {:induction false} EveryRunIsSafe(world: nat -> Answer)
    ensures var f := RunFrom(START, world, 0);
            && (exists pw :: SafeTrace(f.state.trace, pw))
            && (f.ok ==> f.state.trace != [] && f.state.trace[|f.state.trace| - 1].VaultWritten?
                         && f.state.trace[|f.state.trace| - 1].acknowledged)
            && (f.ok <==> f.state.step.Done?)
    ensures NeverMissesPassword(START, world, 0)
  {
    EmptyTraceSafe("");
    var pw := RunKeepsInvariant(START, world, 0, "");
    OkMeansDone(START, world, 0);
  }

  /** Milestones in order have places in the trace that increase. */
  lemma {:induction false} InOrderPlaces(ms: seq<Effect>, tr: seq<Effect>) returns (places: seq<nat>)
    requires InOrder(ms, tr)
    ensures |places| == |ms| && (forall a, b :: 0 <= a < b < |places| ==> places[a] < places[b])
    ensures forall k :: 0 <= k < |ms| ==> places[k] < |tr| && tr[places[k]] == ms[k]
  {
    if ms == [] {
      places := [];
    } else {
      var init := tr[..|tr| - 1];
      if InOrder(ms, init) {
        places := InOrderPlaces(ms, init);
      } else {
        places := InOrderPlaces(ms[..|ms| - 1], init);
        places := places + [|tr| - 1];
      }
    }
  }

  /** The five milestones of a password stand in the trace, one behind the other, before this place. */
  ghost predicate WellPrepared(tr: seq<Effect>, pw: string, at: nat) {
    exists a, b, c, d, e ::
      && 0 <= a < b < c < d < e < at <= |tr|
      && tr[a] == Generated(pw) && tr[b] == FilledNew(pw, true) && tr[c] == FilledConfirm(pw, true)
      && tr[d] == Saved(true) && tr[e] == VerifiedChange
  }

  /** One password, generated first and only then, is in all effects, and each vault write is well prepared. */
  ghost predicate AllPrepared(tr: seq<Effect>, pw: string) {
    && (forall k :: 0 <= k < |tr| ==> Carries(tr[k], pw) && (tr[k].Generated? <==> k == 0))
    && (forall k :: 0 <= k < |tr| && tr[k].VaultWritten? ==> WellPrepared(tr, pw, k))
  }

  /** Every vault write of every run is of the one password and comes behind its milestones. */
  lemma {:induction false} VaultWritesArePrepared(world: nat -> Answer)
    ensures exists pw :: AllPrepared(RunFrom(START, world, 0).state.trace, pw)
  {
    hide RunFrom, InOrder, Milestones, WellPrepared;
    var tr := RunFrom(START, world, 0).state.trace;
    EveryRunIsSafe(world);
    var pw :| SafeTrace(tr, pw);
    forall k | 0 <= k < |tr| && tr[k].VaultWritten?
      ensures WellPrepared(tr, pw, k)
    {
      MilestonesPrepare(tr, pw, k);
    }
    assert AllPrepared(tr, pw);
  }

  lemma {:induction false} MilestonesPrepare(tr: seq<Effect>, pw: string, k: nat)
    requires k <= |tr| && InOrder(Milestones(pw), tr[..k])
    ensures WellPrepared(tr, pw, k)
  {
    hide InOrder;
    var ms := Milestones(pw);
    assert |ms| == 5 && ms[0] == Generated(pw) && ms[1] == FilledNew(pw, true) && ms[2] == FilledConfirm(pw, true);
    assert ms[3] == Saved(true) && ms[4] == VerifiedChange;
    hide Milestones, WellPrepared;
    var places := InOrderPlaces(ms, tr[..k]);
    FivePlaces(tr, pw, k, places[0], places[1], places[2], places[3], places[4]);
  }

  lemma FivePlaces(tr: seq<Effect>, pw: string, at: nat, a: nat, b: nat, c: nat, d: nat, e: nat)
    requires a < b < c < d < e < at <= |tr|
    requires tr[a] == Generated(pw) && tr[b] == FilledNew(pw, true) && tr[c] == FilledConfirm(pw, true)
    requires tr[d] == Saved(true) && tr[e] == VerifiedChange
    ensures WellPrepared(tr, pw, at)
  {
  }

  lemma {:induction false} OkMeansDone(st: State, world: nat -> Answer, n: nat)
    requires Bounded(st)
    ensures RunFrom(st, world, n).ok <==> RunFrom(st, world, n).state.step.Done?
    decreases Remaining(st)
  {
    if !st.step.Terminal() {
      TickUsesOne(st, world(n));
      OkMeansDone(Tick(st, world(n)), world, n + 1);
    }
  }

  /** The trace on reaching a rank when nothing fails. */
  function SmoothTrace(rank: nat, pw: string): seq<Effect> {
    if rank <= 10 then []
    else if rank <= 15 then Milestones(pw)[..rank - 10]
    else Milestones(pw) + [VaultWritten(pw, true)]
  }

  /** The state on reaching a step when nothing fails. */
  function SmoothState(s: WorkflowStep, pw: string): State {
    State(s, 0, if 10 < Rank(s) < 16 then Some(pw) else None, SmoothTrace(Rank(s), pw))
  }

  /** When nothing fails, each step runs once, two-factor handling only on demand. */
  lemma {:induction false} SmoothRun(s: WorkflowStep, needs2fa: bool, pw: string, n: nat)
    requires !s.Failed?
    ensures var st := SmoothState(s, pw);
            && Bounded(st)
            && RunFrom(st, _ => Succeeds(needs2fa, Confirmed, pw), n) ==
               Final(SmoothState(Done, pw), n + 16 - Rank(s) - (if Rank(s) <= 5 && !needs2fa then 1 else 0), true)
    decreases 16 - Rank(s)
  {
    var st := SmoothState(s, pw);
    var world := _ => Succeeds(needs2fa, Confirmed, pw);
    RunUnfolds(st, world, n);
    if s != Done {
      var next := Successor(s, needs2fa, Confirmed).value;
      SmoothTick(s, needs2fa, pw);
      hide RunFrom, Tick, SmoothState;
      SmoothRun(next, needs2fa, pw, n + 1);
    }
  }

  /** The steps that a run executes, in order. */
  function StepsOf(st: State, world: nat -> Answer, n: nat): seq<WorkflowStep>
    requires Bounded(st)
    decreases Remaining(st)
  {
    if st.step.Terminal() then []
    else
      TickUsesOne(st, world(n));
      [st.step] + StepsOf(Tick(st, world(n)), world, n + 1)
  }

  const ALL_STEPS := [
    NavigateToLogin, IdentifyLoginForm, FillUsername, FillPassword, ClickLogin, Check2FA, Handle2FA,
    NavigateToPasswordChange, IdentifyPasswordForm, FillCurrentPassword, GenerateNewPassword,
    FillNewPassword, FillConfirmPassword, ClickSave, VerifySuccess, UpdateVault]

  /** The list from this place on, without its seventh element if that is skipped and still to come. */
  function ListFrom<T>(all: seq<T>, r: nat, whole: bool): seq<T>
    requires |all| == 16 && r <= 16
  {
    if r <= 5 && !whole then all[r..6] + all[7..] else all[r..]
  }

  function StepsFrom(s: WorkflowStep, needs2fa: bool): seq<WorkflowStep> {
    ListFrom(ALL_STEPS, Rank(s), needs2fa)
  }

  lemma ListFromNext<T>(all: seq<T>, r: nat, whole: bool)
    requires |all| == 16 && r < 16
    ensures ListFrom(all, r, whole) == [all[r]] + ListFrom(all, if r == 5 && !whole then 7 else r + 1, whole)
  {
  }

  lemma StepAtRank(s: WorkflowStep)
    ensures |ALL_STEPS| == 16 && (!s.Terminal() ==> ALL_STEPS[Rank(s)] == s)
  {
  }

  lemma RankOfNext(s: WorkflowStep, needs2fa: bool)
    requires !s.Terminal()
    ensures var next := Successor(s, needs2fa, Confirmed);
            next.Some? && Rank(next.value) == Rank(s) + if s.Check2FA? && !needs2fa then 2 else 1
    ensures Rank(s) == 5 <==> s.Check2FA?
  {
  }

  lemma StepsFromNext(s: WorkflowStep, needs2fa: bool)
    requires !s.Terminal()
    ensures Successor(s, needs2fa, Confirmed).Some?
    ensures StepsFrom(s, needs2fa) == [s] + StepsFrom(Successor(s, needs2fa, Confirmed).value, needs2fa)
  {
    hide Successor, Rank, ALL_STEPS, ListFrom;
    StepAtRank(s);
    RankOfNext(s, needs2fa);
    ListFromNext(ALL_STEPS, Rank(s), needs2fa);
  }

  lemma NoStepsFromDone(needs2fa: bool)
    ensures StepsFrom(Done, needs2fa) == []
  {
  }

  /** When nothing fails, the steps executed are these, in this order. */
  lemma {:induction false} SmoothSteps(s: WorkflowStep, needs2fa: bool, pw: string, n: nat)
    requires !s.Failed?
    ensures Bounded(SmoothState(s, pw))
    ensures StepsOf(SmoothState(s, pw), _ => Succeeds(needs2fa, Confirmed, pw), n) == StepsFrom(s, needs2fa)
    decreases 16 - Rank(s)
  {
    if s == Done {
      NoStepsFromDone(needs2fa);
    } else {
      SmoothTick(s, needs2fa, pw);
      StepsFromNext(s, needs2fa);
      SmoothSteps(Successor(s, needs2fa, Confirmed).value, needs2fa, pw, n + 1);
      hide Tick, StepsFrom;
    }
  }

  lemma {:induction false} SmoothTick(s: WorkflowStep, needs2fa: bool, pw: string)
    requires !s.Terminal()
    ensures var next := Successor(s, needs2fa, Confirmed);
            && next.Some? && !next.value.Failed?
            && Tick(SmoothState(s, pw), Succeeds(needs2fa, Confirmed, pw)) == SmoothState(next.value, pw)
            && Rank(next.value) == Rank(s) + if s.Check2FA? && !needs2fa then 2 else 1
  {
    SmoothTraceStep(s, pw);
    SuccessfulTick(SmoothState(s, pw), needs2fa, pw);
    hide SmoothTrace, Milestones, Tick, SuccessEffect;
  }

  function SuccessEffect(s: WorkflowStep, pw: string): seq<Effect> {
    if s.GenerateNewPassword? then [Generated(pw)]
    else if s.VerifySuccess? then [VerifiedChange]
    else EffectOf(s, pw, true)
  }

  lemma {:induction false} SuccessfulTick(st: State, needs2fa: bool, pw: string)
    requires !st.step.Terminal() && (Rank(st.step) > 10 ==> st.newPassword == Some(pw))
    ensures var after := Tick(st, Succeeds(needs2fa, Confirmed, pw));
            && Some(after.step) == Successor(st.step, needs2fa, Confirmed) && after.attempts == 0
            && after.trace == st.trace + SuccessEffect(st.step, pw)
            && after.newPassword == if st.step.GenerateNewPassword? then Some(pw)
                                    else if st.step.UpdateVault? then None else st.newPassword
  {
  }

  lemma {:induction false} SmoothTraceStep(s: WorkflowStep, pw: string)
    requires !s.Terminal()
    ensures SmoothTrace(Rank(s) + 1, pw) ==
            SmoothTrace(Rank(s), pw) + SuccessEffect(s, pw)
    ensures SmoothTrace(6, pw) == SmoothTrace(7, pw) == []
  {
    AllMilestones(pw);
    if 11 <= Rank(s) <= 14 {
      MilestoneOf(Rank(s), pw);
    } else if Rank(s) == 10 {
      assert Milestones(pw)[..1] == [Generated(pw)] == [] + [Generated(pw)];
    } else if Rank(s) < 10 {
      assert [] + EffectOf(s, pw, true) == [];
    }
  }

  // ------------------------------------------------------------------ the engine

  class RotationWorkflow {
    var currentStep: WorkflowStep
    var stepAttempts: nat
    var newPassword: Option<string>
    ghost var trace: seq<Effect>

    constructor ()
      ensures View() == START
    {
      currentStep := NavigateToLogin;
      stepAttempts := 0;
      newPassword := None;
      trace := [];
    }

    ghost function View(): State
      reads this
    {
      State(currentStep, stepAttempts, newPassword, trace)
    }

    method StepGenerateNewPassword(a: Answer) returns (r: StepResult)
      requires currentStep.GenerateNewPassword?
      modifies this`newPassword, this`trace
      ensures (View(), r) == Execute(old(View()), a)
    {
      var pw := if a.Succeeds? then a.generated else "";
      newPassword := Some(pw);
      trace := trace + [Generated(pw)];
      return Next(FillNewPassword);
    }

    /** A step that hands the new password to the site. */
    method StepFillPassword(a: Answer) returns (r: StepResult)
      requires currentStep.FillNewPassword? || currentStep.FillConfirmPassword?
      modifies this`trace
      ensures (View(), r) == Execute(old(View()), a)
    {
      if newPassword.None? {
        return MissingPassword;
      }
      var pw := newPassword.value;
      var next := if currentStep.FillNewPassword? then FillConfirmPassword else ClickSave;
      if a.Succeeds? || a.reached {
        trace := trace + (if currentStep.FillNewPassword? then [FilledNew(pw, a.Succeeds?)]
                          else [FilledConfirm(pw, a.Succeeds?)]);
      }
      r := Outcome(a, next);
    }

    method StepVerifySuccess(a: Answer) returns (r: StepResult)
      requires currentStep.VerifySuccess?
      modifies this`trace
      ensures (View(), r) == Execute(old(View()), a)
    {
      if !a.Succeeds? {
        assert trace + [] == trace;
        r := Outcome(a, Failed);
      } else if a.verdict.Confirmed? {
        trace := trace + [VerifiedChange];
        r := Next(UpdateVault);
      } else if a.verdict.Rejected? {
        assert trace + [] == trace;
        r := Next(Failed);
      } else {
        r := StepErr;
      }
    }

    method StepUpdateVault(a: Answer) returns (r: StepResult)
      requires currentStep.UpdateVault?
      modifies this`newPassword, this`trace
      ensures (View(), r) == Execute(old(View()), a)
    {
      if newPassword.None? {
        return MissingPassword;
      }
      var pw := newPassword.value;
      if a.Succeeds? || a.reached {
        trace := trace + [VaultWritten(pw, a.Succeeds?)];
      }
      if a.Succeeds? {
        newPassword := None;
      }
      r := Outcome(a, Done);
    }

    /** Any other step: browser and vision work without the new password. */
    method StepBrowse(a: Answer) returns (r: StepResult)
      requires !NeedsPassword(currentStep)
      requires !currentStep.GenerateNewPassword? && !currentStep.VerifySuccess?
      modifies this`trace
      ensures (View(), r) == Execute(old(View()), a)
    {
      assert trace + [] == trace;
      if currentStep.ClickSave? && (a.Succeeds? || a.reached) {
        trace := trace + [Saved(a.Succeeds?)];
      }
      var next := if a.Succeeds? then Successor(currentStep, a.needs2fa, a.verdict) else None;
      r := Outcome(a, next.GetOr(Failed));
    }

    method ExecuteStep(a: Answer) returns (r: StepResult)
      modifies this`newPassword, this`trace
      ensures (View(), r) == Execute(old(View()), a)
    {
      match currentStep
      case GenerateNewPassword => r := StepGenerateNewPassword(a);
      case FillNewPassword => r := StepFillPassword(a);
      case FillConfirmPassword => r := StepFillPassword(a);
      case VerifySuccess => r := StepVerifySuccess(a);
      case UpdateVault => r := StepUpdateVault(a);
      case _ => r := StepBrowse(a);
    }

    /** `run`: loops until a terminal step; the result says whether it is `Done`. */
    method Run(world: nat -> Answer) returns (ok: bool, n: nat)
      requires Bounded(View())
      modifies this
      ensures Final(View(), n, ok) == RunFrom(old(View()), world, 0)
    {
      hide RunFrom, Execute, Remaining, Bounded;
      n := 0;
      while true
        invariant Bounded(View())
        invariant RunFrom(View(), world, n) == RunFrom(old(View()), world, 0)
        decreases Remaining(View())
      {
        RunUnfolds(View(), world, n);
        match currentStep {
          case Done => return true, n;
          case Failed => return false, n;
          case _ =>
        }
        var result := ExecuteStep(world(n));
        match result {
          case Next(nextStep) =>
            var changed := currentStep != nextStep;
            if changed {
              stepAttempts := 0;
            }
            currentStep := nextStep;
          case RunTimeout =>
            currentStep := Failed;
          case _ =>
            stepAttempts := stepAttempts + 1;
            if stepAttempts >= MAX_STEP_ATTEMPTS {
              currentStep := Failed;
            }
        }
        n := n + 1;
      }
    }

    /** A fresh workflow's run, with the laws of every run. */
    method RunFresh(world: nat -> Answer) returns (ok: bool, n: nat)
      requires View() == START
      modifies this
      ensures Final(View(), n, ok) == RunFrom(START, world, 0)
      ensures n <= 46
      ensures exists pw :: SafeTrace(trace, pw)
      ensures ok ==> trace != [] && trace[|trace| - 1].VaultWritten? && trace[|trace| - 1].acknowledged
    {
      EveryRunIsSafe(world);
      ExecutionsBounded(START, world, 0);
      ok, n := Run(world);
    }
  }

  function Outcome(a: Answer, next: WorkflowStep): StepResult {
    match a
    case Succeeds(_, _, _) => Next(next)
    case Fails(_) => StepErr
    case StepTimesOut(_) => StepTimeout
    case RunTimesOut(_) => RunTimeout
  }
}
