/** Runs of the trusted core. The handlers reach it under a mutex (src/infra/discord_handler.rs), so a
    run is a sequence of atomic calls at times that never go back. */
module Runs {
  import opened Governor
  import opened Steps
  import opened SlidingWindow
  import opened Detector
  import opened ResponseCompiler
  import Bot
  import DuplicateGuard
  import RateLimiter

  datatype Step =
    | Message(now: nat, ctx: MessageContext, obs: Observation, decision: Decision, after: CoreState)
    | Change(now: nat, control: Control, after: CoreState)

  ghost predicate Follows(s: CoreState, step: Step) {
    match step
    case Message(now, ctx, obs, decision, after) => Decides(s, ctx, obs, now, after, decision)
    case Change(now, control, after) => after == Controlled(s, control, now)
  }

  // What a history can be made of.
  datatype Kind = RefusedRequest | SandboxFailure | OutboundMessage

  predicate Is(step: Step, kind: Kind) {
    match kind
    case RefusedRequest => step.Change? && step.control.HttpStatus? && step.control.status in {401, 403, 429}
    case SandboxFailure => step.Message? && FailedAnalysis(step.decision, step.obs)
    case OutboundMessage => step.Message? && Outbound(step.decision)
  }

  predicate IsSighting(step: Step) { step.Message? && PastScreen(step.decision) }

  datatype Run = Run(bot: Bot.BotConfig, runtime: RuntimeConfig, start: nat, steps: seq<Step>)
  {
    function At(n: nat): CoreState
      requires n <= |steps|
    {
      if n == 0 then NewCore(bot, runtime, start) else steps[n - 1].after
    }

    function Time(n: nat): nat
      requires n <= |steps|
    {
      if n == 0 then start else steps[n - 1].now
    }

    ghost predicate Lawful(n: nat)
      requires n < |steps|
    {
      Time(n) <= steps[n].now && Follows(At(n), steps[n])
    }

    ghost predicate Valid() {
      forall n :: 0 <= n < |steps| ==> Lawful(n)
    }

    /** The times of the events of one kind among the first `n` steps. */
    function Times(n: nat, kind: Kind): seq<nat>
      requires n <= |steps|
    {
      if n == 0 then []
      else if Is(steps[n - 1], kind) then Times(n - 1, kind) + [steps[n - 1].now]
      else Times(n - 1, kind)
    }

    /** The messages that reached the duplicate guard. */
    function Sightings(n: nat): seq<DuplicateGuard.Sighting>
      requires n <= |steps|
    {
      if n == 0 then []
      else if IsSighting(steps[n - 1]) then
        Sightings(n - 1) + [DuplicateGuard.Sighting(steps[n - 1].ctx.messageId, steps[n - 1].now)]
      else Sightings(n - 1)
    }

    // The last time the sandbox failures were trimmed: the last message.
    function LastMessage(n: nat): nat
      requires n <= |steps|
    {
      if n == 0 then start
      else if steps[n - 1].Message? then steps[n - 1].now
      else LastMessage(n - 1)
    }

    /** How many decisions gave a reason. */
    function ReasonsGiven(n: nat): nat
      requires n <= |steps|
    {
      if n == 0 then 0
      else
        var step := steps[n - 1];
        ReasonsGiven(n - 1) + if step.Message? && step.decision.reason.Some? then 1 else 0
    }
  }

  /** Every call on the core extends the run so far: `CoreGovernor.TrustedCore` can make no others. */
  lemma RunExtends(run: Run, step: Step)
    requires run.Valid() && run.Time(|run.steps|) <= step.now && Follows(run.At(|run.steps|), step)
    ensures run.(steps := run.steps + [step]).Valid()
    ensures run.(steps := run.steps + [step]).At(|run.steps| + 1) == step.after
  {
    var longer := run.(steps := run.steps + [step]);
    forall n | 0 <= n < |longer.steps|
      ensures longer.Lawful(n)
    {
      assert n < |run.steps| ==> run.Lawful(n);
    }
  }

  lemma {:induction false} TimeGrows(run: Run, m: nat, n: nat)
    requires run.Valid() && m <= n <= |run.steps|
    ensures run.Time(m) <= run.Time(n)
    decreases n
  {
    if m < n {
      TimeGrows(run, m, n - 1);
      assert run.Lawful(n - 1);
    }
  }

  /** Histories are in order. */
  lemma {:induction false} TimesOrdered(run: Run, n: nat, kind: Kind)
    requires run.Valid() && n <= |run.steps|
    ensures Sorted(run.Times(n, kind)) && UpTo(run.Times(n, kind), run.Time(n))
  {
    if n > 0 {
      TimesOrdered(run, n - 1, kind);
      assert run.Lawful(n - 1);
    }
  }

  // What the compiler is called with for a message observed in the given mode.
  function CompiledContext(run: Run, obs: Observation, mode: RuntimeMode): Context {
    Context(ProposalOf(obs), mode, obs.suspicion, run.bot, run.runtime.maxSendChars, obs.report.matchedBackend,
            FirstReading(obs.report), run.bot.maxCountCap, obs.report.totalCount)
  }

  // One message of a run.
  lemma MessageOutcome(run: Run, n: nat)
    requires run.Valid() && n < |run.steps| && run.steps[n].Message?
    ensures var step := run.steps[n];
            && run.Time(n) <= step.now
            && Outcome(run.At(n), step.ctx, step.obs, step.now, run.At(n + 1), step.decision)
  {
    var step := run.steps[n];
    assert run.Lawful(n);
    DecidedFacts(run.At(n), step.ctx, step.obs, step.now, step.after, step.decision);
  }

  // What no message touches.
  lemma MessageKeeps(run: Run, n: nat)
    requires run.Valid() && n < |run.steps| && run.steps[n].Message?
    ensures var (s, after) := (run.At(n), run.At(n + 1));
            after.bot == s.bot && after.runtime == s.runtime && after.breaker == s.breaker && after.budget == s.budget
  {
    hide Guarded, GuardsClear, Asks, ReachesGuard, CurrentMode, FailuresAfter, Compile;
    hide RateLimiter.Taken, RateLimiter.Grants, DuplicateGuard.Marked, DuplicateGuard.IsDuplicate;
    MessageOutcome(run, n);
  }

  lemma ChangeOutcome(run: Run, n: nat)
    requires run.Valid() && n < |run.steps| && run.steps[n].Change?
    ensures var step := run.steps[n];
            run.Time(n) <= step.now && run.At(n + 1) == Controlled(run.At(n), step.control, step.now)
  {
    assert run.Lawful(n);
  }

  /** The bot's configuration, the limits of guard, breaker, bucket and cooldowns, and the runtime
      configuration but for override, kill switch and access lists, stay as they were set up. */
  lemma {:induction false} SettingsStay(run: Run, n: nat)
    requires run.Valid() && n <= |run.steps|
    ensures Settings(run.At(n)) == Settings(NewCore(run.bot, run.runtime, run.start))
  {
    hide Outcome, Settings, Controlled;
    if n > 0 {
      SettingsStay(run, n - 1);
      var s, step := run.At(n - 1), run.steps[n - 1];
      match step
      case Message(now, ctx, obs, decision, after) =>
        MessageOutcome(run, n - 1);
        MessageKeepsSettings(s, ctx, obs, now, after, decision);
      case Change(now, control, after) =>
        ChangeOutcome(run, n - 1);
        ControlKeepsSettings(s, control, now);
    }
  }
}
