/** Why a message is not answered, over whole runs: the access lists as last set, and the reason that every
    decision gives. */
module RunReasons {
  import opened Strings
  import opened SandboxAbi
  import opened Bot
  import opened ResponseCompiler
  import opened Governor
  import opened Steps
  import opened Runs
  import opened RunModes
  import opened RunPace
  import opened RunCooldowns
  import DuplicateGuard
  import RateLimiter

  // ---------- access lists ----------

  datatype AccessLists = AccessLists(
    allowGuilds: seq<nat>, denyGuilds: seq<nat>, allowChannels: seq<nat>, denyChannels: seq<nat>)

  function AccessListsAt(run: Run, n: nat): AccessLists
    requires n <= |run.steps|
  {
    if n == 0 then
      AccessLists(run.runtime.allowGuilds, run.runtime.denyGuilds, run.runtime.allowChannels, run.runtime.denyChannels)
    else if run.steps[n - 1].Change? && run.steps[n - 1].control.SetAccessLists? then
      var last := run.steps[n - 1].control;
      AccessLists(last.allowGuilds, last.denyGuilds, last.allowChannels, last.denyChannels)
    else AccessListsAt(run, n - 1)
  }

  lemma {:induction false} AccessListsAsLastSet(run: Run, n: nat)
    requires run.Valid() && n <= |run.steps|
    ensures var runtime := run.At(n).runtime;
            AccessListsAt(run, n) == AccessLists(
              runtime.allowGuilds, runtime.denyGuilds, runtime.allowChannels, runtime.denyChannels)
  {
    if n > 0 {
      AccessListsAsLastSet(run, n - 1);
      if run.steps[n - 1].Message? {
        MessageKeeps(run, n - 1);
      } else {
        ChangeOutcome(run, n - 1);
      }
    }
  }

  /** Denied, or missing from an allow list that is not empty. */
  predicate Shut(id: nat, allow: seq<nat>, deny: seq<nat>) {
    id in deny || (allow != [] && id !in allow)
  }

  predicate GuildShut(run: Run, n: nat, ctx: MessageContext)
    requires n <= |run.steps|
  {
    var lists := AccessListsAt(run, n);
    ctx.guildId.Some? && Shut(ctx.guildId.value, lists.allowGuilds, lists.denyGuilds)
  }

  predicate ChannelShut(run: Run, n: nat, ctx: MessageContext)
    requires n <= |run.steps|
  {
    var lists := AccessListsAt(run, n);
    Shut(ctx.channelId, lists.allowChannels, lists.denyChannels)
  }

  // ---------- the reason ----------

  // The checks before the duplicate guard, in order.
  ghost function EarlyReason(run: Run, n: nat, ctx: MessageContext, now: nat): Option<SuppressReason>
    requires n <= |run.steps|
  {
    if ModeByHistory(run, n, now) == FullDisable then Some(ModeRestricted)
    else if ctx.authorIsBot then Some(SelfTrigger)
    else if GuildShut(run, n, ctx) then Some(GuildDenied)
    else if ChannelShut(run, n, ctx) then Some(ChannelDenied)
    else None
  }

  // When nothing was compiled: it was for the mode, for suspicion, or the action was no valid one.
  function NothingCompiledReason(mode: RuntimeMode, proposal: Proposal): Option<SuppressReason> {
    match proposal
    case Noop => None
    case Defer => None
    case Reject(_) => None
    case SuspiciousInput => Some(Suspicious)
    case _ => if mode == Normal then Some(InvalidAction) else Some(ModeRestricted)
  }

  // The guards in front of an action, in order.
  ghost function GuardReason(run: Run, n: nat, ctx: MessageContext, now: nat): Option<SuppressReason>
    requires n <= |run.steps|
  {
    if Tripped(run, n, now) then Some(CircuitOpen)
    else if !RateLimiter.Grants(RateLimiter.AfterAsks(StartBucket(run), AskTimes(run, n)), 1, now) then Some(RateLimit)
    else if run.runtime.maxActionsPerMessage == 0 then Some(InvalidAction)
    else if Cooling(run, n, ctx, now) then Some(SuppressReason.Cooldown)
    else None
  }

  ghost function ReasonByHistory(run: Run, n: nat, ctx: MessageContext, obs: Observation, now: nat): Option<SuppressReason>
    requires n <= |run.steps|
  {
    var mode := ModeByHistory(run, n, now);
    if EarlyReason(run, n, ctx, now).Some? then EarlyReason(run, n, ctx, now)
    else if DuplicateGuard.IsDuplicate(run.At(n).guard, ctx.messageId, now) then Some(Duplicate)
    else if Compile(CompiledContext(run, obs, mode)) == BotAction.Noop then NothingCompiledReason(mode, ProposalOf(obs))
    else GuardReason(run, n, ctx, now)
  }

  lemma ScreenAnswer(s: CoreState, ctx: MessageContext, now: nat)
    ensures Screen(Recomputed(s, now), ctx) ==
            if CurrentMode(s, now) == FullDisable then Some(ModeRestricted)
            else if ctx.authorIsBot then Some(SelfTrigger)
            else if ctx.guildId.Some? && Shut(ctx.guildId.value, s.runtime.allowGuilds, s.runtime.denyGuilds)
            then Some(GuildDenied)
            else if Shut(ctx.channelId, s.runtime.allowChannels, s.runtime.denyChannels) then Some(ChannelDenied)
            else None
  {
  }

  lemma ScreenedGivesReason(s: CoreState, ctx: MessageContext, obs: Observation, now: nat, after: CoreState, d: Decision)
    requires Decides(s, ctx, obs, now, after, d)
    ensures Screen(Recomputed(s, now), ctx).Some? ==> d.reason == Screen(Recomputed(s, now), ctx)
  {
    hide Judged, Screen, Recomputed;
  }

  lemma EarlyReasonGiven(run: Run, n: nat)
    requires run.Valid() && n < |run.steps| && run.steps[n].Message?
    ensures var (ctx, now, d) := (run.steps[n].ctx, run.steps[n].now, run.steps[n].decision);
            && (EarlyReason(run, n, ctx, now).Some? ==> d.reason == EarlyReason(run, n, ctx, now))
            && (ReachesGuard(run.At(n), ctx, now) <==> EarlyReason(run, n, ctx, now) == None)
  {
    hide Screen, Recomputed, Outcome, Decides, ModeByHistory;
    var step, s := run.steps[n], run.At(n);
    assert run.Lawful(n);
    ModeSeen(run, n);
    AccessListsAsLastSet(run, n);
    ScreenAnswer(s, step.ctx, step.now);
    ScreenedGivesReason(s, step.ctx, step.obs, step.now, step.after, step.decision);
  }

  lemma ModeSeen(run: Run, n: nat)
    requires run.Valid() && n < |run.steps| && run.steps[n].Message?
    ensures CurrentMode(run.At(n), run.steps[n].now) == ModeByHistory(run, n, run.steps[n].now)
  {
    hide ModeByHistory, CurrentMode, Guarded, GuardsClear, Asks, FailuresAfter, Compile;
    MessageOutcome(run, n);
    DecisionModeIsModeByHistory(run, n);
  }

  // Behind the duplicate guard: the reason is `FinalReason`, read off the history.
  lemma LateReasonGiven(run: Run, n: nat)
    requires run.Valid() && n < |run.steps| && run.steps[n].Message?
    requires EarlyReason(run, n, run.steps[n].ctx, run.steps[n].now) == None
    ensures var step := run.steps[n];
            step.decision.reason == ReasonByHistory(run, n, step.ctx, step.obs, step.now)
  {
    hide Compile, Tripped, AnyCooling, Cooling, RateLimiter.Grants, RateLimiter.AfterAsks, AskTimes, EarlyReason;
    hide ModeByHistory, DuplicateGuard.IsDuplicate, DuplicateGuard.Marked, Guarded, RateLimiter.Taken, FailuresAfter;
    var (s, ctx, now) := (run.At(n), run.steps[n].ctx, run.steps[n].now);
    EarlyReasonGiven(run, n);
    MessageOutcome(run, n);
    SettingsStay(run, n);
    DecisionModeIsModeByHistory(run, n);
    BreakerByHistory(run, n, now);
    BucketByHistory(run, n);
    AnyCoolingByHistory(run, n, ctx, now);
  }

  /** The reason of every decision of every run, or that there is none: the first check that stands against
      the message, with mode, breaker, bucket, cooldowns and access lists read off the history. */
  lemma EveryReason(run: Run, n: nat)
    requires run.Valid() && n < |run.steps| && run.steps[n].Message?
    ensures var step := run.steps[n];
            step.decision.reason == ReasonByHistory(run, n, step.ctx, step.obs, step.now)
  {
    hide EarlyReason;
    var (ctx, now) := (run.steps[n].ctx, run.steps[n].now);
    if EarlyReason(run, n, ctx, now).Some? {
      EarlyReasonGiven(run, n);
    } else {
      LateReasonGiven(run, n);
    }
  }

  // Only the screening gives these reasons.
  lemma ScreeningReasons(run: Run, n: nat)
    requires run.Valid() && n < |run.steps| && run.steps[n].Message?
    requires run.steps[n].decision.reason in {Some(GuildDenied), Some(ChannelDenied)}
    ensures EarlyReason(run, n, run.steps[n].ctx, run.steps[n].now) == run.steps[n].decision.reason
  {
    hide EarlyReason, Compile, GuardReason;
    EveryReason(run, n);
    GuardsGiveOther(run, n, run.steps[n].ctx, run.steps[n].now);
  }

  lemma GuardsGiveOther(run: Run, n: nat, ctx: MessageContext, now: nat)
    requires n <= |run.steps|
    ensures GuardReason(run, n, ctx, now) !in {Some(GuildDenied), Some(ChannelDenied)}
  {
  }

  /** The access lists are kept in every run: a message is dropped for its guild exactly when mode and
      author let it through and the guild is denied or missing from a non-empty allow list; for its
      channel exactly when the guild lets it through too. No other message is answered. */
  lemma AccessExactly(run: Run, n: nat)
    requires run.Valid() && n < |run.steps| && run.steps[n].Message?
    ensures var (d, ctx, lists) := (run.steps[n].decision, run.steps[n].ctx, AccessListsAt(run, n));
            var passes := ModeByHistory(run, n, run.steps[n].now) != FullDisable && !ctx.authorIsBot;
            var guildShut := ctx.guildId.Some? && (
                               || ctx.guildId.value in lists.denyGuilds
                               || (lists.allowGuilds != [] && ctx.guildId.value !in lists.allowGuilds));
            var channelShut := ctx.channelId in lists.denyChannels
                               || (lists.allowChannels != [] && ctx.channelId !in lists.allowChannels);
            && (d.reason == Some(GuildDenied) <==> passes && guildShut)
            && (d.reason == Some(ChannelDenied) <==> passes && !guildShut && channelShut)
            && (Outbound(d) ==> passes && !guildShut && !channelShut)
  {
    hide ModeByHistory, Outcome;
    EarlyReasonGiven(run, n);
    if run.steps[n].decision.reason in {Some(GuildDenied), Some(ChannelDenied)} {
      ScreeningReasons(run, n);
    }
    OutboundGivesNoReason(run, n);
  }

  lemma OutboundGivesNoReason(run: Run, n: nat)
    requires run.Valid() && n < |run.steps| && run.steps[n].Message?
    ensures run.steps[n].decision.reason.Some? ==> !Outbound(run.steps[n].decision)
  {
    hide Compile, RateLimiter.Taken, RateLimiter.Grants, DuplicateGuard.Marked;
    MessageOutcome(run, n);
  }
}
