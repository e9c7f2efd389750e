/** The trusted core of src/security/core_governor.rs as a state machine: its state, and what each
    call does to it. `CoreGovernor.TrustedCore` is proved against these functions; `Runs` and the
    modules after it prove what holds over whole runs. */
module Governor {
  import opened Strings
  import opened SandboxAbi
  import opened SandboxHost
  import opened Bot
  import opened Detector
  import opened ResponseCompiler
  import opened SlidingWindow
  import Mode
  import DuplicateGuard
  import CircuitBreaker
  import RateLimiter
  import SessionBudget
  import Cooldown

  // ---------- data ----------

  datatype RuntimeConfig = RuntimeConfig(
    duplicateTtl: nat,
    duplicateCap: nat,
    userCooldown: nat,
    channelCooldown: nat,
    guildCooldown: nat,
    globalCooldown: nat,
    ratePerSec: real,
    rateBurst: nat,
    maxActionsPerMessage: nat,
    maxSendChars: nat,
    breakerWindow: nat,
    breakerThreshold: nat,
    breakerOpenFor: nat,
    sandboxWindow: nat,
    sandboxThreshold: nat,
    allowGuilds: seq<nat>,
    denyGuilds: seq<nat>,
    allowChannels: seq<nat>,
    denyChannels: seq<nat>,
    modeOverride: Option<RuntimeMode>,
    killSwitch: bool,
    budgetLowWatermark: nat)

  datatype MessageContext = MessageContext(
    messageId: nat, authorId: nat, channelId: nat, guildId: Option<nat>, authorIsBot: bool)

  // What the classifier, the detector and the sandboxed analyzer say about the message's content.
  datatype Observation = Observation(
    suspicion: Suspicion, report: Report, answer: Result<Proposal, AnalyzerError>)

  datatype SuppressReason =
    | SelfTrigger
    | Duplicate
    | Cooldown
    | RateLimit
    | CircuitOpen
    | ChannelDenied
    | GuildDenied
    | ModeRestricted
    | Suspicious
    | InvalidAction

  datatype Decision = Decision(
    action: BotAction, mode: RuntimeMode, proposal: Proposal, suspicion: Suspicion, reason: Option<SuppressReason>)

  const U64_MAX := 0xFFFF_FFFF_FFFF_FFFF

  // `saturating_add(1)` on a 64-bit counter.
  function Bump(counter: nat): nat { if counter >= U64_MAX then U64_MAX else counter + 1 }

  datatype Metrics = Metrics(
    analyzerCalls: nat,
    analyzerTraps: nat,
    analyzerTimeouts: nat,
    dropped: nat,
    duplicates: nat,
    outboundSuppressed: nat,
    cooldownHits: nat,
    refusedRequests: nat,
    budgetLow: nat,
    modeTransitions: nat)

  datatype CoreState = CoreState(
    bot: BotConfig,
    runtime: RuntimeConfig,
    mode: Mode.ModeRecord,
    guard: DuplicateGuard.GuardState,
    breaker: CircuitBreaker.BreakerState,
    bucket: RateLimiter.BucketState,
    users: Cooldown.CooldownState,
    channels: Cooldown.CooldownState,
    guilds: Cooldown.CooldownState,
    everyone: Cooldown.CooldownState,
    budget: SessionBudget.BudgetState,
    sandboxFailures: seq<nat>,
    lastDetection: Option<Report>,
    metrics: Metrics)

  function NewCore(bot: BotConfig, runtime: RuntimeConfig, now: nat): CoreState {
    CoreState(
      bot,
      runtime,
      Mode.ModeRecord(Normal, now, Mode.Recovery),
      DuplicateGuard.NewGuard(runtime.duplicateTtl, runtime.duplicateCap),
      CircuitBreaker.NewBreaker(runtime.breakerWindow, runtime.breakerThreshold, runtime.breakerOpenFor),
      RateLimiter.NewBucket(runtime.rateBurst, runtime.ratePerSec, now),
      Cooldown.CooldownState(runtime.userCooldown, map[]),
      Cooldown.CooldownState(runtime.channelCooldown, map[]),
      Cooldown.CooldownState(runtime.guildCooldown, map[]),
      Cooldown.CooldownState(runtime.globalCooldown, map[]),
      SessionBudget.NewBudget(1000, 1000, 86_400, runtime.budgetLowWatermark),
      [],
      None,
      Metrics(0, 0, 0, 0, 0, 0, 0, 0, 0, 0))
  }

  // ---------- the mode ----------

  predicate BudgetDecides(s: CoreState) {
    !s.runtime.killSwitch && s.runtime.modeOverride == None && SessionBudget.IsLow(s.budget)
  }

  /** The fixed priority order of `recompute_mode`, given the number of recent sandbox failures. */
  function Target(s: CoreState, recentFailures: nat, now: nat): (RuntimeMode, Mode.Trigger) {
    if s.runtime.killSwitch then (FullDisable, Mode.EmergencyKillSwitch)
    else if s.runtime.modeOverride.Some? then (s.runtime.modeOverride.value, Mode.OperatorOverride)
    else if SessionBudget.IsLow(s.budget) then (ReactOnlyMode, Mode.SessionBudgetLow)
    else if CircuitBreaker.IsOpen(s.breaker, now) then (ObserveOnly, Mode.CircuitBreakerOpen)
    else if recentFailures >= s.runtime.sandboxThreshold then (AuditOnly, Mode.SandboxFailureSpike)
    else (Normal, Mode.Recovery)
  }

  function Trimmed(s: CoreState, now: nat): CoreState {
    s.(sandboxFailures := TrimFront(s.sandboxFailures, now, s.runtime.sandboxWindow))
  }

  function Recomputed(s: CoreState, now: nat): CoreState {
    var t := Trimmed(s, now);
    var (target, trigger) := Target(t, |t.sandboxFailures|, now);
    t.(mode := Mode.Transitioned(t.mode, target, trigger, now),
       metrics := t.metrics.(
         budgetLow := if BudgetDecides(t) then Bump(t.metrics.budgetLow) else t.metrics.budgetLow,
         modeTransitions := if t.mode.mode != target then Bump(t.metrics.modeTransitions) else t.metrics.modeTransitions))
  }

  // ---------- screening ----------

  predicate Listed(id: nat, allow: seq<nat>, deny: seq<nat>) {
    id !in deny && (allow == [] || id in allow)
  }

  predicate GuildAllowed(r: RuntimeConfig, guildId: Option<nat>) {
    guildId == None || Listed(guildId.value, r.allowGuilds, r.denyGuilds)
  }

  predicate ChannelAllowed(r: RuntimeConfig, channelId: nat) {
    Listed(channelId, r.allowChannels, r.denyChannels)
  }

  // The checks that come before the duplicate guard.
  function Screen(s: CoreState, ctx: MessageContext): Option<SuppressReason> {
    if s.mode.mode == FullDisable then Some(ModeRestricted)
    else if ctx.authorIsBot then Some(SelfTrigger)
    else if !GuildAllowed(s.runtime, ctx.guildId) then Some(GuildDenied)
    else if !ChannelAllowed(s.runtime, ctx.channelId) then Some(ChannelDenied)
    else None
  }

  // ---------- dropping ----------

  function CountDrop(s: CoreState): CoreState {
    s.(metrics := s.metrics.(
      dropped := Bump(s.metrics.dropped),
      outboundSuppressed := Bump(s.metrics.outboundSuppressed)))
  }

  function Dropped(s: CoreState, proposal: Proposal, suspicion: Suspicion, reason: SuppressReason): (CoreState, Decision) {
    (CountDrop(s), Decision(BotAction.Noop, s.mode.mode, proposal, suspicion, Some(reason)))
  }

  // ---------- asking the analyzer ----------

  function CountError(m: Metrics, error: AnalyzerError): Metrics {
    if error == TimedOut then m.(analyzerTimeouts := Bump(m.analyzerTimeouts))
    else m.(analyzerTraps := Bump(m.analyzerTraps))
  }

  function Observed(s: CoreState, obs: Observation, now: nat): (CoreState, Proposal) {
    var seen := s.(lastDetection := Some(obs.report));
    if obs.suspicion == Hard then (seen, SuspiciousInput)
    else
      var called := seen.(metrics := seen.metrics.(analyzerCalls := Bump(seen.metrics.analyzerCalls)));
      match obs.answer
      case Success(proposal) => (called, proposal)
      case Failure(error) =>
        (called.(metrics := CountError(called.metrics, error),
                 sandboxFailures := TrimFront(called.sandboxFailures + [now], now, called.runtime.sandboxWindow)),
         Defer)
  }

  // ---------- deciding ----------

  predicate IsOutbound(p: Proposal) { p == SpecialPhrase || p == ReactOnce || p.SendStamped? }

  // `compile_response_from_detection`, as `finalize` calls it.
  function CompileContext(s: CoreState, proposal: Proposal, suspicion: Suspicion, report: Report): Context {
    Context(proposal, s.mode.mode, suspicion, s.bot, s.runtime.maxSendChars, report.matchedBackend,
            FirstReading(report), s.bot.maxCountCap, report.totalCount)
  }

  /** `cooldown_allows`: the guild is marked before the global cooldown is looked at. */
  function CooldownsChecked(s: CoreState, ctx: MessageContext, now: nat): (CoreState, bool) {
    if Cooldown.IsCooling(s.users, ctx.authorId, now) || Cooldown.IsCooling(s.channels, ctx.channelId, now) then (s, false)
    else if ctx.guildId.Some? && Cooldown.IsCooling(s.guilds, ctx.guildId.value, now) then (s, false)
    else
      var g := if ctx.guildId.Some? then s.(guilds := Cooldown.Marked(s.guilds, ctx.guildId.value, now)) else s;
      if Cooldown.IsCooling(g.everyone, 0, now) then (g, false)
      else
        (g.(users := Cooldown.Marked(g.users, ctx.authorId, now),
            channels := Cooldown.Marked(g.channels, ctx.channelId, now),
            everyone := Cooldown.Marked(g.everyone, 0, now)),
         true)
  }

  /** `enforce_action_caps`. */
  function EnforceActionCaps(action: BotAction, maxSendChars: nat): BotAction {
    match action
    case SendMessage(content) =>
      var capped := Take(content, maxSendChars);
      if capped == "" then BotAction.Noop else SendMessage(capped)
    case React(emojiId, emojiName, _) =>
      if emojiId == 0 || emojiName == "" then BotAction.Noop else action
    case Noop => BotAction.Noop
  }

  // Why `finalize` gives no action at all, if it gives a reason.
  function NoActionReason(mode: RuntimeMode, proposal: Proposal): Option<SuppressReason> {
    if mode != Normal && IsOutbound(proposal) then Some(ModeRestricted)
    else if proposal == SuspiciousInput then Some(Suspicious)
    else if IsOutbound(proposal) then Some(InvalidAction)
    else None
  }

  /** `finalize`. */
  function Finalized(
    s: CoreState, ctx: MessageContext, proposal: Proposal, suspicion: Suspicion, report: Report, now: nat)
    : (CoreState, Decision)
  {
    var action := Compile(CompileContext(s, proposal, suspicion, report));
    if action == BotAction.Noop then
      match NoActionReason(s.mode.mode, proposal)
      case Some(reason) => Dropped(s, proposal, suspicion, reason)
      case None => (s, Decision(action, s.mode.mode, proposal, suspicion, None))
    else if CircuitBreaker.IsOpen(s.breaker, now) then Dropped(s, proposal, suspicion, CircuitOpen)
    else Admitted(s, ctx, proposal, suspicion, action, now)
  }

  // The token bucket, and then the guards behind it.
  function Admitted(
    s: CoreState, ctx: MessageContext, proposal: Proposal, suspicion: Suspicion, action: BotAction, now: nat)
    : (CoreState, Decision)
  {
    var t := s.(bucket := RateLimiter.Taken(s.bucket, 1, now));
    if !RateLimiter.Grants(s.bucket, 1, now) then Dropped(t, proposal, suspicion, RateLimit)
    else Spaced(t, ctx, proposal, suspicion, action, now)
  }

  function CountCooldownHit(s: CoreState): CoreState {
    s.(metrics := s.metrics.(cooldownHits := Bump(s.metrics.cooldownHits)))
  }

  // Actions per message, cooldowns, caps.
  function Spaced(
    s: CoreState, ctx: MessageContext, proposal: Proposal, suspicion: Suspicion, action: BotAction, now: nat)
    : (CoreState, Decision)
  {
    if s.runtime.maxActionsPerMessage == 0 then Dropped(s, proposal, suspicion, InvalidAction)
    else
      var (c, allowed) := CooldownsChecked(s, ctx, now);
      AfterCooldowns(c, allowed, proposal, suspicion, action)
  }

  function AfterCooldowns(s: CoreState, allowed: bool, proposal: Proposal, suspicion: Suspicion, action: BotAction)
    : (CoreState, Decision)
  {
    if !allowed then Dropped(CountCooldownHit(s), proposal, suspicion, Cooldown)
    else Released(s, proposal, suspicion, EnforceActionCaps(action, s.runtime.maxSendChars))
  }

  function Released(s: CoreState, proposal: Proposal, suspicion: Suspicion, capped: BotAction): (CoreState, Decision) {
    if IsInvalid(capped) then Dropped(s, proposal, suspicion, InvalidAction)
    else (s, Decision(capped, s.mode.mode, proposal, suspicion, None))
  }

  // A message that passed the guard: analyse it and finalise what is proposed.
  function Answered(s: CoreState, ctx: MessageContext, obs: Observation, now: nat): (CoreState, Decision) {
    var (o, proposal) := Observed(s, obs, now);
    Finalized(o, ctx, proposal, obs.suspicion, obs.report, now)
  }

  // From the duplicate guard on; `seen` is its memory after marking the message.
  function Judged(r: CoreState, ctx: MessageContext, obs: Observation, now: nat, seen: map<nat, nat>)
    : (CoreState, Decision)
  {
    var m := r.(guard := r.guard.(seen := seen));
    if DuplicateGuard.IsDuplicate(r.guard, ctx.messageId, now) then
      Dropped(m.(metrics := m.metrics.(duplicates := Bump(m.metrics.duplicates))), Proposal.Noop, NotSuspicious, Duplicate)
    else Answered(m, ctx, obs, now)
  }

  /** `decide_message`. */
  function Decided(s: CoreState, ctx: MessageContext, obs: Observation, now: nat, seen: map<nat, nat>)
    : (CoreState, Decision)
  {
    var r := Recomputed(s, now);
    match Screen(r, ctx)
    case Some(reason) => Dropped(r, Proposal.Noop, NotSuspicious, reason)
    case None => Judged(r, ctx, obs, now, seen)
  }

  predicate ReachesGuard(s: CoreState, ctx: MessageContext, now: nat) {
    Screen(Recomputed(s, now), ctx) == None
  }

  /** One call of `decide_message`: what it returns and leaves behind. */
  ghost predicate Decides(
    s: CoreState, ctx: MessageContext, obs: Observation, now: nat, after: CoreState, decision: Decision)
  {
    && (after, decision) == Decided(s, ctx, obs, now, after.guard.seen)
    && (if ReachesGuard(s, ctx, now) then DuplicateGuard.Marked(s.guard, ctx.messageId, now, after.guard)
        else after.guard == s.guard)
  }

  // ---------- the other calls ----------

  datatype Control =
    | HttpStatus(status: nat)
    | SetModeOverride(mode: Option<RuntimeMode>)
    | SetKillSwitch(enabled: bool)
    | SetAccessLists(allowGuilds: seq<nat>, denyGuilds: seq<nat>, allowChannels: seq<nat>, denyChannels: seq<nat>)
    | UpdateBudget(total: nat, remaining: nat, resetAfterSecs: nat)

  function Controlled(s: CoreState, control: Control, now: nat): CoreState {
    match control
    case HttpStatus(status) =>
      s.(breaker := CircuitBreaker.Recorded(s.breaker, status, now),
         metrics := s.metrics.(refusedRequests :=
           if CircuitBreaker.IsRefusal(status) then Bump(s.metrics.refusedRequests) else s.metrics.refusedRequests))
    case SetModeOverride(mode) => s.(runtime := s.runtime.(modeOverride := mode))
    case SetKillSwitch(enabled) => s.(runtime := s.runtime.(killSwitch := enabled))
    case SetAccessLists(allowGuilds, denyGuilds, allowChannels, denyChannels) =>
      s.(runtime := s.runtime.(
           allowGuilds := allowGuilds, denyGuilds := denyGuilds,
           allowChannels := allowChannels, denyChannels := denyChannels))
    case UpdateBudget(total, remaining, resetAfterSecs) =>
      s.(budget := SessionBudget.NewBudget(total, remaining, resetAfterSecs, s.runtime.budgetLowWatermark))
  }
}
