/** src/security/core_governor.rs: the trusted core, updating its parts in place. */
module CoreGovernor {
  import opened Strings
  import opened SandboxAbi
  import opened SandboxHost
  import opened Bot
  import opened Detector
  import opened ResponseCompiler
  import opened Governor
  import SlidingWindow
  import Mode
  import DuplicateGuard
  import CircuitBreaker
  import RateLimiter
  import SessionBudget
  import Cooldown

  class TrustedCore {
    const bot: BotConfig
    const mode: Mode.ModeState
    const guard: DuplicateGuard.Guard
    const breaker: CircuitBreaker.HttpCircuitBreaker
    const bucket: RateLimiter.TokenBucket
    const users: Cooldown.CooldownMap
    const channels: Cooldown.CooldownMap
    const guilds: Cooldown.CooldownMap
    const everyone: Cooldown.CooldownMap
    var budget: SessionBudget.Budget
    var runtime: RuntimeConfig
    var sandboxFailures: seq<nat>
    var lastDetection: Option<Report>
    var metrics: Metrics

    ghost function Repr(): set<object>
      reads this
    {
      {this, mode, guard, breaker, bucket, users, channels, guilds, everyone, budget}
    }

    ghost predicate Valid()
      reads this
    {
      && users != channels && users != guilds && users != everyone
      && channels != guilds && channels != everyone && guilds != everyone
    }

    ghost function State(): CoreState
      reads Repr()
    {
      CoreState(
        bot, runtime, mode.State(), guard.State(), breaker.State(), bucket.State(), users.State(), channels.State(),
        guilds.State(), everyone.State(), budget.State(), sandboxFailures, lastDetection, metrics)
    }

    constructor (bot: BotConfig, runtime: RuntimeConfig, now: nat)
      ensures Valid() && fresh(Repr())
      ensures State() == NewCore(bot, runtime, now)
    {
      this.bot := bot;
      this.runtime := runtime;
      mode := new Mode.ModeState(now);
      guard := new DuplicateGuard.Guard(runtime.duplicateTtl, runtime.duplicateCap);
      breaker := new CircuitBreaker.HttpCircuitBreaker(
        runtime.breakerWindow, runtime.breakerThreshold, runtime.breakerOpenFor);
      bucket := new RateLimiter.TokenBucket(runtime.rateBurst, runtime.ratePerSec, now);
      users := new Cooldown.CooldownMap(runtime.userCooldown);
      channels := new Cooldown.CooldownMap(runtime.channelCooldown);
      guilds := new Cooldown.CooldownMap(runtime.guildCooldown);
      everyone := new Cooldown.CooldownMap(runtime.globalCooldown);
      budget := new SessionBudget.Budget(1000, 1000, 86_400, runtime.budgetLowWatermark);
      sandboxFailures := [];
      lastDetection := None;
      metrics := Metrics(0, 0, 0, 0, 0, 0, 0, 0, 0, 0);
    }

    // ---------- decide_message and its parts ----------

    method RecomputeMode(now: nat) returns (target: RuntimeMode)
      requires Valid()
      modifies this, mode
      ensures Valid() && budget == old(budget)
      ensures State() == Recomputed(old(State()), now) && target == State().mode.mode
    {
      sandboxFailures := SlidingWindow.Trim(sandboxFailures, now, runtime.sandboxWindow);
      var trigger;
      var open := breaker.Open(now);
      if runtime.killSwitch {
        target, trigger := FullDisable, Mode.EmergencyKillSwitch;
      } else if runtime.modeOverride.Some? {
        target, trigger := runtime.modeOverride.value, Mode.OperatorOverride;
      } else if budget.remaining <= budget.lowWatermark {
        metrics := metrics.(budgetLow := Bump(metrics.budgetLow));
        target, trigger := ReactOnlyMode, Mode.SessionBudgetLow;
      } else if open {
        target, trigger := ObserveOnly, Mode.CircuitBreakerOpen;
      } else if |sandboxFailures| >= runtime.sandboxThreshold {
        target, trigger := AuditOnly, Mode.SandboxFailureSpike;
      } else {
        target, trigger := Normal, Mode.Recovery;
      }
      var changed := mode.Transition(target, trigger, now);
      if changed {
        metrics := metrics.(modeTransitions := Bump(metrics.modeTransitions));
      }
    }

    method Drop(current: RuntimeMode, proposal: Proposal, suspicion: Suspicion, reason: SuppressReason)
      returns (decision: Decision)
      requires Valid() && current == mode.mode
      modifies this
      ensures Valid() && budget == old(budget)
      ensures (State(), decision) == Dropped(old(State()), proposal, suspicion, reason)
    {
      metrics := metrics.(
        dropped := Bump(metrics.dropped),
        outboundSuppressed := Bump(metrics.outboundSuppressed));
      decision := Decision(BotAction.Noop, current, proposal, suspicion, Some(reason));
    }

    method CooldownAllows(ctx: MessageContext, now: nat) returns (allowed: bool)
      requires Valid()
      modifies users, channels, guilds, everyone
      ensures (State(), allowed) == CooldownsChecked(old(State()), ctx, now)
    {
      var cooling := users.Cooling(ctx.authorId, now);
      if cooling {
        return false;
      }
      cooling := channels.Cooling(ctx.channelId, now);
      if cooling {
        return false;
      }
      if ctx.guildId.Some? {
        cooling := guilds.Cooling(ctx.guildId.value, now);
        if cooling {
          return false;
        }
        guilds.Mark(ctx.guildId.value, now);
      }
      cooling := everyone.Cooling(0, now);
      if cooling {
        return false;
      }
      users.Mark(ctx.authorId, now);
      channels.Mark(ctx.channelId, now);
      everyone.Mark(0, now);
      return true;
    }

    method RecordAnalyzerError(now: nat, error: AnalyzerError)
      requires Valid()
      modifies this
      ensures Valid() && budget == old(budget)
      ensures State() == old(State()).(
        metrics := CountError(old(metrics), error),
        sandboxFailures := SlidingWindow.TrimFront(old(sandboxFailures) + [now], now, runtime.sandboxWindow))
    {
      if error == TimedOut {
        metrics := metrics.(analyzerTimeouts := Bump(metrics.analyzerTimeouts));
      } else {
        metrics := metrics.(analyzerTraps := Bump(metrics.analyzerTraps));
      }
      sandboxFailures := sandboxFailures + [now];
      sandboxFailures := SlidingWindow.Trim(sandboxFailures, now, runtime.sandboxWindow);
    }

    // From the detection report and the analyzer's answer to a proposal.
    method Observe(obs: Observation, now: nat) returns (proposal: Proposal)
      requires Valid()
      modifies this
      ensures Valid() && budget == old(budget)
      ensures (State(), proposal) == Observed(old(State()), obs, now)
    {
      lastDetection := Some(obs.report);
      if obs.suspicion == Hard {
        return SuspiciousInput;
      }
      metrics := metrics.(analyzerCalls := Bump(metrics.analyzerCalls));
      match obs.answer
      case Success(answered) => return answered;
      case Failure(error) =>
        RecordAnalyzerError(now, error);
        return Defer;
    }

    method Finalize(
      ctx: MessageContext, proposal: Proposal, suspicion: Suspicion, report: Report, current: RuntimeMode, now: nat)
      returns (decision: Decision)
      requires Valid() && current == mode.mode
      modifies this, bucket, users, channels, guilds, everyone
      ensures Valid() && budget == old(budget)
      ensures (State(), decision) == Finalized(old(State()), ctx, proposal, suspicion, report, now)
    {
      var action := Compile(Context(proposal, current, suspicion, bot, runtime.maxSendChars, report.matchedBackend,
                                    FirstReading(report), bot.maxCountCap, report.totalCount));
      if action == BotAction.Noop {
        if current != Normal && IsOutbound(proposal) {
          decision := Drop(current, proposal, suspicion, ModeRestricted);
          return;
        }
        if proposal == SuspiciousInput {
          decision := Drop(current, proposal, suspicion, Suspicious);
          return;
        }
        if IsOutbound(proposal) {
          decision := Drop(current, proposal, suspicion, InvalidAction);
          return;
        }
        return Decision(action, current, proposal, suspicion, None);
      }
      var clear := breaker.AllowsOutbound(now);
      if !clear {
        decision := Drop(current, proposal, suspicion, CircuitOpen);
        return;
      }
      decision := Admit(ctx, proposal, suspicion, action, current, now);
    }

    method Admit(
      ctx: MessageContext, proposal: Proposal, suspicion: Suspicion, action: BotAction, current: RuntimeMode, now: nat)
      returns (decision: Decision)
      requires Valid() && current == mode.mode
      modifies this, bucket, users, channels, guilds, everyone
      ensures Valid() && budget == old(budget)
      ensures (State(), decision) == Admitted(old(State()), ctx, proposal, suspicion, action, now)
    {
      ghost var before := State();
      var granted := bucket.TryTake(1, now);
      assert State() == before.(bucket := RateLimiter.Taken(before.bucket, 1, now));
      if !granted {
        decision := Drop(current, proposal, suspicion, RateLimit);
        return;
      }
      decision := Space(ctx, proposal, suspicion, action, current, now);
    }

    method Space(
      ctx: MessageContext, proposal: Proposal, suspicion: Suspicion, action: BotAction, current: RuntimeMode, now: nat)
      returns (decision: Decision)
      requires Valid() && current == mode.mode
      modifies this, users, channels, guilds, everyone
      ensures Valid() && budget == old(budget)
      ensures (State(), decision) == Spaced(old(State()), ctx, proposal, suspicion, action, now)
    {
      if runtime.maxActionsPerMessage == 0 {
        decision := Drop(current, proposal, suspicion, InvalidAction);
        return;
      }
      var allowed := CooldownAllows(ctx, now);
      decision := ConcludeCooldowns(allowed, proposal, suspicion, action, current);
    }

    method ConcludeCooldowns(
      allowed: bool, proposal: Proposal, suspicion: Suspicion, action: BotAction, current: RuntimeMode)
      returns (decision: Decision)
      requires Valid() && current == mode.mode
      modifies this
      ensures Valid() && budget == old(budget)
      ensures (State(), decision) == AfterCooldowns(old(State()), allowed, proposal, suspicion, action)
    {
      if !allowed {
        metrics := metrics.(cooldownHits := Bump(metrics.cooldownHits));
        decision := Drop(current, proposal, suspicion, Cooldown);
        return;
      }
      var capped := EnforceActionCaps(action, runtime.maxSendChars);
      decision := Release(proposal, suspicion, capped, current);
    }

    method Release(proposal: Proposal, suspicion: Suspicion, capped: BotAction, current: RuntimeMode)
      returns (decision: Decision)
      requires Valid() && current == mode.mode
      modifies this
      ensures Valid() && budget == old(budget)
      ensures (State(), decision) == Released(old(State()), proposal, suspicion, capped)
    {
      if IsInvalid(capped) {
        decision := Drop(current, proposal, suspicion, InvalidAction);
        return;
      }
      decision := Decision(capped, current, proposal, suspicion, None);
    }

    // The checks before the duplicate guard.
    method ScreenMessage(ctx: MessageContext, current: RuntimeMode) returns (reason: Option<SuppressReason>)
      requires Valid() && current == mode.mode
      ensures reason == Screen(State(), ctx)
    {
      if current == FullDisable {
        return Some(ModeRestricted);
      }
      if ctx.authorIsBot {
        return Some(SelfTrigger);
      }
      if !GuildAllowed(runtime, ctx.guildId) {
        return Some(GuildDenied);
      }
      if !ChannelAllowed(runtime, ctx.channelId) {
        return Some(ChannelDenied);
      }
      return None;
    }

    // The duplicate guard and what follows it.
    method Judge(ctx: MessageContext, obs: Observation, current: RuntimeMode, now: nat) returns (decision: Decision)
      requires Valid() && current == mode.mode
      modifies this, guard, bucket, users, channels, guilds, everyone
      ensures Valid() && budget == old(budget)
      ensures (State(), decision) == Judged(old(State()), ctx, obs, now, guard.seen)
      ensures DuplicateGuard.Marked(old(guard.State()), ctx.messageId, now, guard.State())
    {
      var duplicate := guard.IsDuplicateAndMark(ctx.messageId, now);
      if duplicate {
        metrics := metrics.(duplicates := Bump(metrics.duplicates));
        decision := Drop(current, Proposal.Noop, NotSuspicious, Duplicate);
        return;
      }
      decision := Answer(ctx, obs, current, now);
    }

    method Answer(ctx: MessageContext, obs: Observation, current: RuntimeMode, now: nat) returns (decision: Decision)
      requires Valid() && current == mode.mode
      modifies this, bucket, users, channels, guilds, everyone
      ensures Valid() && budget == old(budget)
      ensures (State(), decision) == Answered(old(State()), ctx, obs, now)
    {
      var proposal := Observe(obs, now);
      decision := Finalize(ctx, proposal, obs.suspicion, obs.report, current, now);
    }

    method DecideMessage(ctx: MessageContext, obs: Observation, now: nat) returns (decision: Decision)
      requires Valid()
      modifies Repr()
      ensures Valid() && budget == old(budget)
      ensures Decides(old(State()), ctx, obs, now, State(), decision)
    {
      var current := RecomputeMode(now);
      var refused := ScreenMessage(ctx, current);
      if refused.Some? {
        decision := Drop(current, Proposal.Noop, NotSuspicious, refused.value);
        return;
      }
      decision := Judge(ctx, obs, current, now);
    }

    // ---------- the other calls ----------

    method RecordHttpStatus(status: nat, now: nat)
      requires Valid()
      modifies this, breaker
      ensures Valid() && budget == old(budget)
      ensures State() == Controlled(old(State()), HttpStatus(status), now)
    {
      if status == 401 || status == 403 || status == 429 {
        metrics := metrics.(refusedRequests := Bump(metrics.refusedRequests));
      }
      breaker.RecordStatus(status, now);
    }

    method ChangeModeOverride(override: Option<RuntimeMode>)
      requires Valid()
      modifies this
      ensures Valid() && budget == old(budget)
      ensures forall now :: State() == Controlled(old(State()), SetModeOverride(override), now)
    {
      runtime := runtime.(modeOverride := override);
    }

    method ChangeKillSwitch(enabled: bool)
      requires Valid()
      modifies this
      ensures Valid() && budget == old(budget)
      ensures forall now :: State() == Controlled(old(State()), SetKillSwitch(enabled), now)
    {
      runtime := runtime.(killSwitch := enabled);
    }

    method ChangeAccessLists(
      allowGuilds: seq<nat>, denyGuilds: seq<nat>, allowChannels: seq<nat>, denyChannels: seq<nat>)
      requires Valid()
      modifies this
      ensures Valid() && budget == old(budget)
      ensures forall now :: State() == Controlled(
                       old(State()), SetAccessLists(allowGuilds, denyGuilds, allowChannels, denyChannels), now)
    {
      runtime := runtime.(
        allowGuilds := allowGuilds, denyGuilds := denyGuilds,
        allowChannels := allowChannels, denyChannels := denyChannels);
    }

    method UpdateSessionBudget(total: nat, remaining: nat, resetAfterSecs: nat)
      requires Valid()
      modifies this
      ensures Valid() && fresh(budget)
      ensures forall now :: State() == Controlled(old(State()), UpdateBudget(total, remaining, resetAfterSecs), now)
    {
      budget := new SessionBudget.Budget(total, remaining, resetAfterSecs, runtime.budgetLowWatermark);
    }
  }
}
