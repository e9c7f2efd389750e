/** What the core keeps for its operators, over whole runs: the counters, the record of the mode and the
    last detection. */
module RunRecords {
  import opened Strings
  import opened SandboxAbi
  import opened SandboxHost
  import opened Bot
  import opened Detector
  import opened ResponseCompiler
  import opened SlidingWindow
  import opened Governor
  import opened Steps
  import opened Runs
  import opened RunModes
  import CircuitBreaker
  import DuplicateGuard
  import RateLimiter
  import Mode

  // ---------- one message ----------

  function BumpIf(counter: nat, happened: bool): nat { if happened then Bump(counter) else counter }

  // What a reason adds.
  function Counted(m: Metrics, reason: Option<SuppressReason>): Metrics {
    m.(dropped := BumpIf(m.dropped, reason.Some?),
       outboundSuppressed := BumpIf(m.outboundSuppressed, reason.Some?),
       cooldownHits := BumpIf(m.cooldownHits, reason == Some(SuppressReason.Cooldown)))
  }

  // What asking the analyzer adds.
  function Asked(m: Metrics, obs: Observation): Metrics {
    var failed := obs.suspicion != Hard && obs.answer.Failure?;
    m.(analyzerCalls := BumpIf(m.analyzerCalls, obs.suspicion != Hard),
       analyzerTimeouts := BumpIf(m.analyzerTimeouts, failed && obs.answer.error == TimedOut),
       analyzerTraps := BumpIf(m.analyzerTraps, failed && obs.answer.error != TimedOut))
  }

  lemma SpacedCounts(
    s: CoreState, ctx: MessageContext, proposal: Proposal, suspicion: Suspicion, action: BotAction, now: nat)
    ensures var (after, d) := Spaced(s, ctx, proposal, suspicion, action, now);
            after.metrics == Counted(s.metrics, d.reason)
            && after.mode == s.mode && after.lastDetection == s.lastDetection
  {
    hide CooldownsChecked, EnforceActionCaps, IsInvalid, Bump, AnyCooling, GuildMarked, OnlyGlobalCooling;
    CooldownAnswer(s, ctx, now);
  }

  lemma FinalizedCounts(
    s: CoreState, ctx: MessageContext, proposal: Proposal, suspicion: Suspicion, report: Report, now: nat)
    ensures var (after, d) := Finalized(s, ctx, proposal, suspicion, report, now);
            after.metrics == Counted(s.metrics, d.reason)
            && after.mode == s.mode && after.lastDetection == s.lastDetection
  {
    hide Spaced, Compile, Bump, RateLimiter.Taken, RateLimiter.Grants;
    var action := Compile(CompileContext(s, proposal, suspicion, report));
    SpacedCounts(s.(bucket := RateLimiter.Taken(s.bucket, 1, now)), ctx, proposal, suspicion, action, now);
  }

  lemma AnsweredCounts(s: CoreState, ctx: MessageContext, obs: Observation, now: nat)
    ensures var (after, d) := Answered(s, ctx, obs, now);
            after.metrics == Counted(Asked(s.metrics, obs), d.reason)
            && after.mode == s.mode && after.lastDetection == Some(obs.report)
  {
    hide Finalized, Bump, TrimFront;
    var (o, proposal) := Observed(s, obs, now);
    FinalizedCounts(o, ctx, proposal, obs.suspicion, obs.report, now);
  }

  function CurrentTrigger(s: CoreState, now: nat): Mode.Trigger {
    Target(s, |Trimmed(s, now).sandboxFailures|, now).1
  }

  // What looking at the mode adds.
  function ModeSeenBy(m: Metrics, low: bool, changed: bool): Metrics {
    m.(budgetLow := BumpIf(m.budgetLow, low), modeTransitions := BumpIf(m.modeTransitions, changed))
  }

  ghost predicate Records(s: CoreState, obs: Observation, now: nat, after: CoreState, d: Decision) {
    var seen := ModeSeenBy(s.metrics, BudgetDecides(s), s.mode.mode != CurrentMode(s, now));
    && after.mode == (if s.mode.mode == CurrentMode(s, now) then s.mode
                      else Mode.ModeRecord(CurrentMode(s, now), now, CurrentTrigger(s, now)))
    && after.lastDetection == (if PastGuard(d) then Some(obs.report) else s.lastDetection)
    && var asked := if PastGuard(d) then Asked(seen, obs) else seen;
       after.metrics == Counted(
                          asked.(duplicates := BumpIf(asked.duplicates, d.reason == Some(Duplicate))), d.reason)
  }

  lemma RecomputedRecords(s: CoreState, now: nat)
    ensures var r := Recomputed(s, now);
            && r.metrics == ModeSeenBy(s.metrics, BudgetDecides(s), s.mode.mode != CurrentMode(s, now))
            && r.mode == (if s.mode.mode == CurrentMode(s, now) then s.mode
                          else Mode.ModeRecord(CurrentMode(s, now), now, CurrentTrigger(s, now)))
            && r.lastDetection == s.lastDetection && r.mode.mode == CurrentMode(s, now)
  {
    hide Bump, TrimFront;
  }

  lemma ScreenReasons(s: CoreState, ctx: MessageContext)
    ensures Screen(s, ctx) == None || s.mode.mode == FullDisable
            || Screen(s, ctx) in {Some(SelfTrigger), Some(GuildDenied), Some(ChannelDenied)}
    ensures Screen(s, ctx) in {Some(ModeRestricted), Some(SelfTrigger), Some(GuildDenied), Some(ChannelDenied), None}
    ensures Screen(s, ctx) == None ==> s.mode.mode != FullDisable
  {
  }

  lemma DecidedRecords(s: CoreState, ctx: MessageContext, obs: Observation, now: nat, after: CoreState, d: Decision)
    requires Decides(s, ctx, obs, now, after, d)
    ensures Records(s, obs, now, after, d)
  {
    hide Recomputed, Screen, Answered, Bump, CurrentMode, CurrentTrigger, DuplicateGuard.IsDuplicate;
    hide DuplicateGuard.Marked, Guarded, FinalReason, Asks, GuardsClear, BudgetDecides, Compile;
    var r := Recomputed(s, now);
    RecomputedRecords(s, now);
    ScreenReasons(r, ctx);
    var m := r.(guard := r.guard.(seen := after.guard.seen));
    if Screen(r, ctx) == None && !DuplicateGuard.IsDuplicate(r.guard, ctx.messageId, now) {
      AnsweredFacts(m, ctx, obs, now);
      AnsweredCounts(m, ctx, obs, now);
    }
  }

  // ---------- the record of the mode ----------

  /** What decides the mode, from configuration and history alone. */
  ghost function TriggerByHistory(run: Run, n: nat, now: nat): Mode.Trigger
    requires n <= |run.steps|
  {
    if KillSwitchAt(run, n) then Mode.EmergencyKillSwitch
    else if OverrideAt(run, n).Some? then Mode.OperatorOverride
    else if BudgetLowAt(run, n) then Mode.SessionBudgetLow
    else if Tripped(run, n, now) then Mode.CircuitBreakerOpen
    else if |Recent(run.Times(n, SandboxFailure), now, run.runtime.sandboxWindow)| >= run.runtime.sandboxThreshold
    then Mode.SandboxFailureSpike
    else Mode.Recovery
  }

  /** The mode, when it last changed and what changed it: by the last message decided in another mode than
      the one before it. */
  ghost function LastChange(run: Run, n: nat): Mode.ModeRecord
    requires n <= |run.steps|
  {
    if n == 0 then Mode.ModeRecord(Normal, run.start, Mode.Recovery)
    else
      var (before, step) := (LastChange(run, n - 1), run.steps[n - 1]);
      if step.Message? && step.decision.mode != before.mode
      then Mode.ModeRecord(step.decision.mode, step.now, TriggerByHistory(run, n - 1, step.now))
      else before
  }

  lemma TriggerSeen(run: Run, n: nat)
    requires run.Valid() && n < |run.steps| && run.steps[n].Message?
    ensures var (s, now) := (run.At(n), run.steps[n].now);
            && CurrentTrigger(s, now) == TriggerByHistory(run, n, now)
            && CurrentMode(s, now) == run.steps[n].decision.mode
            && (BudgetDecides(s) <==> !KillSwitchAt(run, n) && OverrideAt(run, n) == None && BudgetLowAt(run, n))
  {
    hide RateLimiter.Taken, RateLimiter.Grants, Guarded, GuardsClear, Asks, Compile, FinalReason;
    hide CircuitBreaker.IsOpen, Tripped, TrimFront, Recent;
    var s, now := run.At(n), run.steps[n].now;
    MessageOutcome(run, n);
    SettingsStay(run, n);
    SwitchesAsLastSet(run, n);
    BudgetAsLastSet(run, n);
    BreakerByHistory(run, n, now);
    QueueFollowsHistory(run, n);
    TimesOrdered(run, n, SandboxFailure);
    TrimLater(run.Times(n, SandboxFailure), run.LastMessage(n), now, run.runtime.sandboxWindow);
  }

  lemma RecordsOf(run: Run, n: nat)
    requires run.Valid() && n < |run.steps| && run.steps[n].Message?
    ensures Records(run.At(n), run.steps[n].obs, run.steps[n].now, run.At(n + 1), run.steps[n].decision)
  {
    hide Decides, Records;
    var step := run.steps[n];
    assert run.Lawful(n);
    DecidedRecords(run.At(n), step.ctx, step.obs, step.now, step.after, step.decision);
  }

  /** In every reachable state the recorded mode, its time and its trigger are those of the last change. */
  lemma {:induction false} ModeRecordByHistory(run: Run, n: nat)
    requires run.Valid() && n <= |run.steps|
    ensures run.At(n).mode == LastChange(run, n)
  {
    hide TriggerByHistory, CurrentTrigger, CurrentMode, BudgetDecides, Counted, Asked;
    if n > 0 {
      ModeRecordByHistory(run, n - 1);
      if run.steps[n - 1].Message? {
        RecordsOf(run, n - 1);
        TriggerSeen(run, n - 1);
      } else {
        ChangeOutcome(run, n - 1);
      }
    }
  }

  // ---------- the last detection ----------

  function LastReport(run: Run, n: nat): Option<Report>
    requires n <= |run.steps|
  {
    if n == 0 then None
    else if run.steps[n - 1].Message? && PastGuard(run.steps[n - 1].decision) then Some(run.steps[n - 1].obs.report)
    else LastReport(run, n - 1)
  }

  /** In every reachable state the last detection is the report on the last message past the guard. */
  lemma {:induction false} LastDetectionByHistory(run: Run, n: nat)
    requires run.Valid() && n <= |run.steps|
    ensures run.At(n).lastDetection == LastReport(run, n)
  {
    hide CurrentTrigger, CurrentMode, BudgetDecides, Counted, Asked;
    if n > 0 {
      LastDetectionByHistory(run, n - 1);
      if run.steps[n - 1].Message? {
        RecordsOf(run, n - 1);
      } else {
        ChangeOutcome(run, n - 1);
      }
    }
  }

  // ---------- the counters ----------

  datatype Event =
    | Analysis
    | Trapped
    | RanOutOfTime
    | Suppressed
    | FoundDuplicate
    | HitCooldown
    | RefusedByServer
    | SawLowBudget
    | ChangedMode

  ghost predicate Happened(run: Run, i: nat, event: Event)
    requires i < |run.steps|
  {
    var step := run.steps[i];
    match event
    case RefusedByServer => Is(step, RefusedRequest)
    case Analysis => step.Message? && PastGuard(step.decision) && step.obs.suspicion != Hard
    case Trapped => step.Message? && FailedAnalysis(step.decision, step.obs) && step.obs.answer.error != TimedOut
    case RanOutOfTime => step.Message? && FailedAnalysis(step.decision, step.obs) && step.obs.answer.error == TimedOut
    case Suppressed => step.Message? && step.decision.reason.Some?
    case FoundDuplicate => step.Message? && step.decision.reason == Some(Duplicate)
    case HitCooldown => step.Message? && step.decision.reason == Some(SuppressReason.Cooldown)
    case SawLowBudget => step.Message? && !KillSwitchAt(run, i) && OverrideAt(run, i) == None && BudgetLowAt(run, i)
    case ChangedMode => step.Message? && step.decision.mode != LastChange(run, i).mode
  }

  ghost function HowOften(run: Run, n: nat, event: Event): nat
    requires n <= |run.steps|
  {
    if n == 0 then 0 else HowOften(run, n - 1, event) + if Happened(run, n - 1, event) then 1 else 0
  }

  function CounterOf(m: Metrics, event: Event): nat {
    match event
    case Analysis => m.analyzerCalls
    case Trapped => m.analyzerTraps
    case RanOutOfTime => m.analyzerTimeouts
    case Suppressed => m.dropped
    case FoundDuplicate => m.duplicates
    case HitCooldown => m.cooldownHits
    case RefusedByServer => m.refusedRequests
    case SawLowBudget => m.budgetLow
    case ChangedMode => m.modeTransitions
  }

  lemma CountersStep(run: Run, n: nat, event: Event)
    requires run.Valid() && n < |run.steps|
    ensures CounterOf(run.At(n + 1).metrics, event)
         == BumpIf(CounterOf(run.At(n).metrics, event), Happened(run, n, event))
    ensures run.At(n).metrics.outboundSuppressed == run.At(n).metrics.dropped ==>
              run.At(n + 1).metrics.outboundSuppressed == run.At(n + 1).metrics.dropped
  {
    hide TriggerByHistory, CurrentTrigger, CurrentMode, BudgetDecides, BudgetLowAt, Bump, LastChange;
    if run.steps[n].Message? {
      ModeRecordByHistory(run, n);
      RecordsOf(run, n);
      TriggerSeen(run, n);
    } else {
      ChangeOutcome(run, n);
    }
  }

  /** In every reachable state each counter is the number of its events so far, saturating at 64 bits, and
      as many actions count as suppressed as messages as dropped. */
  lemma {:induction false} CountersByHistory(run: Run, n: nat)
    requires run.Valid() && n <= |run.steps|
    ensures forall event :: CounterOf(run.At(n).metrics, event) == Min(HowOften(run, n, event), 18446744073709551615)
    ensures run.At(n).metrics.outboundSuppressed == run.At(n).metrics.dropped
  {
    hide Happened;
    if n > 0 {
      CountersByHistory(run, n - 1);
      forall event
        ensures CounterOf(run.At(n).metrics, event) == Min(HowOften(run, n, event), 18446744073709551615)
      {
        CountersStep(run, n - 1, event);
      }
      CountersStep(run, n - 1, Suppressed);
    }
  }
}
