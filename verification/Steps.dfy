/** What one `decide_message` does to each part of the trusted core, and what its decision tells. */
module Steps {
  import opened Strings
  import opened SandboxAbi
  import opened Bot
  import opened Detector
  import opened ResponseCompiler
  import opened SlidingWindow
  import opened Governor
  import DuplicateGuard
  import CircuitBreaker
  import RateLimiter
  import Cooldown
  import SessionBudget
  import Mode

  predicate Outbound(d: Decision) { d.action != BotAction.Noop }

  // Readable off the decision: did the message get to, and past, the duplicate guard?
  predicate PastScreen(d: Decision) {
    d.mode != FullDisable && d.reason !in {Some(SelfTrigger), Some(GuildDenied), Some(ChannelDenied)}
  }

  predicate PastGuard(d: Decision) { PastScreen(d) && d.reason != Some(Duplicate) }

  // Did this message record a sandbox failure?
  predicate FailedAnalysis(d: Decision, obs: Observation) {
    PastGuard(d) && obs.suspicion != Hard && obs.answer.Failure?
  }

  predicate Silent(p: Proposal) { p == Proposal.Noop || p == Defer || p.Reject? }

  // ---------- caps ----------

  /** The last caps of `finalize` change nothing: the compiler has already applied them. */
  lemma CapsAreIdentity(ctx: Context)
    ensures EnforceActionCaps(Compile(ctx), ctx.maxSendChars) == Compile(ctx)
    ensures !IsInvalid(Compile(ctx))
  {
    SendExactly(ctx);
  }

  /** On any other action: texts are cut to the limit and reactions checked. */
  lemma CapsExactly(action: BotAction, maxSendChars: nat)
    ensures var capped := EnforceActionCaps(action, maxSendChars);
            && (capped.SendMessage? <==> action.SendMessage? && action.content != "" && maxSendChars > 0)
            && (capped.SendMessage? ==> capped.content == Take(action.content, maxSendChars))
            && (capped.React? <==> action.React? && action.emojiId != 0 && action.emojiName != "")
            && (capped.React? ==> capped == action)
  {
  }

  // ---------- cooldowns ----------

  predicate AnyCooling(s: CoreState, ctx: MessageContext, now: nat) {
    || Cooldown.IsCooling(s.users, ctx.authorId, now)
    || Cooldown.IsCooling(s.channels, ctx.channelId, now)
    || (ctx.guildId.Some? && Cooldown.IsCooling(s.guilds, ctx.guildId.value, now))
    || Cooldown.IsCooling(s.everyone, 0, now)
  }

  function GuildMarked(s: CoreState, ctx: MessageContext, now: nat): Cooldown.CooldownState {
    if ctx.guildId.Some? then Cooldown.Marked(s.guilds, ctx.guildId.value, now) else s.guilds
  }

  // Only the global cooldown stands in the way.
  predicate OnlyGlobalCooling(s: CoreState, ctx: MessageContext, now: nat) {
    && AnyCooling(s, ctx, now)
    && !AnyCooling(s.(everyone := s.everyone.(nextAllowed := map[])), ctx, now)
  }

  /** A message passes when none of its keys is cooling, and then marks them all. A refusal leaves
      user, channel and global marks alone; the guild is marked even so when only the global
      cooldown refuses. */
  lemma CooldownAnswer(s: CoreState, ctx: MessageContext, now: nat)
    ensures var (c, allowed) := CooldownsChecked(s, ctx, now);
            && (allowed <==> !AnyCooling(s, ctx, now))
            && c == s.(
                      users := if allowed then Cooldown.Marked(s.users, ctx.authorId, now) else s.users,
                      channels := if allowed then Cooldown.Marked(s.channels, ctx.channelId, now) else s.channels,
                      guilds := if allowed || OnlyGlobalCooling(s, ctx, now) then GuildMarked(s, ctx, now) else s.guilds,
                      everyone := if allowed then Cooldown.Marked(s.everyone, 0, now) else s.everyone)
  {
  }

  /** So a refused message can keep its guild waiting longer than any message that was let through. */
  lemma RefusalExtendsGuildCooldown(s: CoreState, ctx: MessageContext, now: nat)
    requires OnlyGlobalCooling(s, ctx, now) && ctx.guildId.Some? && s.guilds.ttl > 0
    ensures var (c, allowed) := CooldownsChecked(s, ctx, now);
            && !allowed
            && !Cooldown.IsCooling(s.guilds, ctx.guildId.value, now)
            && Cooldown.IsCooling(c.guilds, ctx.guildId.value, now + s.guilds.ttl - 1)
  {
    CooldownAnswer(s, ctx, now);
  }

  // ---------- finalize ----------

  // A message refused for the global cooldown alone still marks its guild.
  predicate MarksGuildOnly(s: CoreState, ctx: MessageContext, now: nat, d: Decision) {
    d.reason == Some(SuppressReason.Cooldown) && OnlyGlobalCooling(s, ctx, now)
  }

  // What a message does to the guards: the bucket pays for a compiled action, and the marks are set
  // for an outbound one, which no guard stood against.
  ghost predicate Guarded(s: CoreState, ctx: MessageContext, now: nat, after: CoreState, d: Decision) {
    && after.users == (if Outbound(d) then Cooldown.Marked(s.users, ctx.authorId, now) else s.users)
    && after.channels == (if Outbound(d) then Cooldown.Marked(s.channels, ctx.channelId, now) else s.channels)
    && after.guilds == (if Outbound(d) || MarksGuildOnly(s, ctx, now, d) then GuildMarked(s, ctx, now) else s.guilds)
    && (d.reason == Some(SuppressReason.Cooldown) ==> AnyCooling(s, ctx, now))
    && after.everyone == (if Outbound(d) then Cooldown.Marked(s.everyone, 0, now) else s.everyone)
    && (Outbound(d) ==>
          && !CircuitBreaker.IsOpen(s.breaker, now)
          && RateLimiter.Grants(s.bucket, 1, now) && after.bucket == RateLimiter.Taken(s.bucket, 1, now)
          && !AnyCooling(s, ctx, now))
    && after.metrics.dropped == (if d.reason.Some? then Bump(s.metrics.dropped) else s.metrics.dropped)
  }

  // Nothing else changes in `finalize`.
  ghost predicate OnlyGuards(s: CoreState, after: CoreState) {
    after == s.(bucket := after.bucket, users := after.users, channels := after.channels, guilds := after.guilds,
                everyone := after.everyone, metrics := after.metrics)
  }

  lemma SpacedFacts(
    s: CoreState, ctx: MessageContext, proposal: Proposal, suspicion: Suspicion, action: BotAction, now: nat)
    requires EnforceActionCaps(action, s.runtime.maxSendChars) == action && !IsInvalid(action)
    ensures var (after, d) := Spaced(s, ctx, proposal, suspicion, action, now);
            && OnlyGuards(s, after) && after.bucket == s.bucket
            && d.mode == s.mode.mode && d.proposal == proposal && d.suspicion == suspicion
            && d.action == (if d.reason == None then action else BotAction.Noop)
            && d.reason == (if s.runtime.maxActionsPerMessage == 0 then Some(InvalidAction)
                            else if AnyCooling(s, ctx, now) then Some(SuppressReason.Cooldown) else None)
            && after.users == (if d.reason == None then Cooldown.Marked(s.users, ctx.authorId, now) else s.users)
            && after.channels == (if d.reason == None then Cooldown.Marked(s.channels, ctx.channelId, now) else s.channels)
            && after.guilds == (if d.reason == None || MarksGuildOnly(s, ctx, now, d) then GuildMarked(s, ctx, now)
                                else s.guilds)
            && after.everyone == (if d.reason == None then Cooldown.Marked(s.everyone, 0, now) else s.everyone)
            && after.metrics.dropped == (if d.reason.Some? then Bump(s.metrics.dropped) else s.metrics.dropped)
  {
    hide CooldownsChecked, AnyCooling, GuildMarked, OnlyGlobalCooling, Bump, IsInvalid, Cooldown.Marked;
    CooldownAnswer(s, ctx, now);
  }

  lemma AdmittedFacts(
    s: CoreState, ctx: MessageContext, proposal: Proposal, suspicion: Suspicion, action: BotAction, now: nat)
    requires EnforceActionCaps(action, s.runtime.maxSendChars) == action && !IsInvalid(action)
    requires action != BotAction.Noop && !CircuitBreaker.IsOpen(s.breaker, now)
    ensures var (after, d) := Admitted(s, ctx, proposal, suspicion, action, now);
            && Guarded(s, ctx, now, after, d) && OnlyGuards(s, after)
            && after.bucket == RateLimiter.Taken(s.bucket, 1, now)
            && d.mode == s.mode.mode && d.proposal == proposal && d.suspicion == suspicion
            && d.action == (if d.reason == None then action else BotAction.Noop)
            && d.reason == (if !RateLimiter.Grants(s.bucket, 1, now) then Some(RateLimit)
                            else if s.runtime.maxActionsPerMessage == 0 then Some(InvalidAction)
                            else if AnyCooling(s, ctx, now) then Some(SuppressReason.Cooldown) else None)
  {
    SpacedFacts(s.(bucket := RateLimiter.Taken(s.bucket, 1, now)), ctx, proposal, suspicion, action, now);
  }

  // The reason `finalize` gives for a compiled action: that of the first guard that stands against it.
  function FinalReason(
    s: CoreState, ctx: MessageContext, proposal: Proposal, action: BotAction, mode: RuntimeMode, now: nat)
    : Option<SuppressReason>
  {
    if action == BotAction.Noop then NoActionReason(mode, proposal)
    else if CircuitBreaker.IsOpen(s.breaker, now) then Some(CircuitOpen)
    else if !RateLimiter.Grants(s.bucket, 1, now) then Some(RateLimit)
    else if s.runtime.maxActionsPerMessage == 0 then Some(InvalidAction)
    else if AnyCooling(s, ctx, now) then Some(SuppressReason.Cooldown) else None
  }

  /** `finalize`, guard by guard: every compiled action passes the breaker, the bucket, the limit on
      actions and the cooldowns, in this order, and is otherwise dropped with that guard's reason; the
      caps applied last change nothing. No action is given without a reason exactly for a proposal
      that asks for none. */
  lemma FinalizedFacts(
    s: CoreState, ctx: MessageContext, proposal: Proposal, suspicion: Suspicion, report: Report, now: nat)
    ensures var (after, d) := Finalized(s, ctx, proposal, suspicion, report, now);
            var action := Compile(CompileContext(s, proposal, suspicion, report));
            && Guarded(s, ctx, now, after, d) && OnlyGuards(s, after)
            && after.bucket == (if action != BotAction.Noop && !CircuitBreaker.IsOpen(s.breaker, now)
                                then RateLimiter.Taken(s.bucket, 1, now) else s.bucket)
            && d.mode == s.mode.mode && d.proposal == proposal && d.suspicion == suspicion
            && d.action == (if d.reason == None then action else BotAction.Noop)
            && d.reason == FinalReason(s, ctx, proposal, action, s.mode.mode, now)
            && (!Outbound(d) && d.reason == None <==> Silent(proposal))
  {
    var c := CompileContext(s, proposal, suspicion, report);
    var action := Compile(c);
    CapsAreIdentity(c);
    if action != BotAction.Noop && !CircuitBreaker.IsOpen(s.breaker, now) {
      AdmittedFacts(s, ctx, proposal, suspicion, action, now);
    }
    SilentCompile(c);
  }

  lemma SilentCompile(c: Context)
    ensures Silent(c.proposal) || c.proposal == SuspiciousInput ==> Compile(c) == BotAction.Noop
  {
  }

  // ---------- decide_message ----------

  // What the sandbox is taken to have proposed.
  function ProposalOf(obs: Observation): Proposal {
    if obs.suspicion == Hard then SuspiciousInput
    else
      match obs.answer
      case Success(proposal) => proposal
      case Failure(_) => Defer
  }

  function FailuresAfter(s: CoreState, failed: bool, now: nat): seq<nat> {
    var kept := TrimFront(s.sandboxFailures, now, s.runtime.sandboxWindow);
    if failed then TrimFront(kept + [now], now, s.runtime.sandboxWindow) else kept
  }

  function CurrentMode(s: CoreState, now: nat): RuntimeMode {
    Target(s, |Trimmed(s, now).sandboxFailures|, now).0
  }

  // The message's compiled action gets to the token bucket, in the mode of the given state.
  predicate Asks(s: CoreState, obs: Observation, now: nat) {
    && Compile(CompileContext(s, ProposalOf(obs), obs.suspicion, obs.report)) != BotAction.Noop
    && !CircuitBreaker.IsOpen(s.breaker, now)
  }

  // No guard behind the compiler stands against an action.
  predicate GuardsClear(s: CoreState, ctx: MessageContext, now: nat) {
    && !CircuitBreaker.IsOpen(s.breaker, now) && RateLimiter.Grants(s.bucket, 1, now)
    && s.runtime.maxActionsPerMessage > 0 && !AnyCooling(s, ctx, now)
  }

  lemma AnsweredFacts(s: CoreState, ctx: MessageContext, obs: Observation, now: nat)
    ensures var (after, d) := Answered(s, ctx, obs, now);
            var failed := obs.suspicion != Hard && obs.answer.Failure?;
            && Guarded(s, ctx, now, after, d)
            && OnlyGuards(s.(sandboxFailures := after.sandboxFailures, lastDetection := after.lastDetection), after)
            && after.sandboxFailures ==
               (if failed then TrimFront(s.sandboxFailures + [now], now, s.runtime.sandboxWindow) else s.sandboxFailures)
            && after.bucket == (if Asks(s, obs, now) then RateLimiter.Taken(s.bucket, 1, now) else s.bucket)
            && d.mode == s.mode.mode && d.proposal == ProposalOf(obs) && d.suspicion == obs.suspicion
            && d.action == (if d.reason == None then Compile(CompileContext(s, ProposalOf(obs), obs.suspicion, obs.report))
                            else BotAction.Noop)
            && d.reason !in {Some(SelfTrigger), Some(GuildDenied), Some(ChannelDenied), Some(Duplicate)}
            && d.reason == FinalReason(
                             s, ctx, ProposalOf(obs), Compile(CompileContext(s, ProposalOf(obs), obs.suspicion, obs.report)),
                             s.mode.mode, now)
            && (Outbound(d) <==>
                  && Compile(CompileContext(s, ProposalOf(obs), obs.suspicion, obs.report)) != BotAction.Noop
                  && GuardsClear(s, ctx, now))
            && (d.reason == Some(CircuitOpen) ==> CircuitBreaker.IsOpen(s.breaker, now))
            && (d.reason == Some(RateLimit) ==> !RateLimiter.Grants(s.bucket, 1, now))
            && (Outbound(d) || d.reason == Some(CircuitOpen) ==> s.mode.mode in {Normal, ReactOnlyMode})
            && (!Outbound(d) && d.reason == None <==> Silent(ProposalOf(obs)))
  {
    var (o, proposal) := Observed(s, obs, now);
    FinalizedFacts(o, ctx, proposal, obs.suspicion, obs.report, now);
    ModeLetsThrough(CompileContext(o, proposal, obs.suspicion, obs.report));
  }

  lemma ModeLetsThrough(c: Context)
    ensures Compile(c) != BotAction.Noop ==> c.mode in {Normal, ReactOnlyMode}
  {
  }

  /** What one `decide_message` comes to, part by part. */
  ghost predicate Outcome(
    s: CoreState, ctx: MessageContext, obs: Observation, now: nat, after: CoreState, d: Decision)
  {
    && d.mode == after.mode.mode == CurrentMode(s, now)
    && after.bot == s.bot && after.runtime == s.runtime && after.breaker == s.breaker && after.budget == s.budget
    && Guarded(s, ctx, now, after, d)
    && after.bucket == (if PastGuard(d) && Asks(after, obs, now) then RateLimiter.Taken(s.bucket, 1, now) else s.bucket)
    && after.sandboxFailures == FailuresAfter(s, FailedAnalysis(d, obs), now)
    && (PastScreen(d) <==> ReachesGuard(s, ctx, now))
    && (if PastScreen(d) then DuplicateGuard.Marked(s.guard, ctx.messageId, now, after.guard) else after.guard == s.guard)
    && (d.reason == Some(Duplicate) <==> PastScreen(d) && DuplicateGuard.IsDuplicate(s.guard, ctx.messageId, now))
    && (PastGuard(d) ==>
          && d.proposal == ProposalOf(obs) && d.suspicion == obs.suspicion
          && d.reason == FinalReason(
                           s, ctx, d.proposal, Compile(CompileContext(after, d.proposal, d.suspicion, obs.report)), d.mode, now)
          && (d.reason == None ==> d.action == Compile(CompileContext(after, d.proposal, d.suspicion, obs.report))))
    && (Outbound(d) <==>
          && ReachesGuard(s, ctx, now) && !DuplicateGuard.IsDuplicate(s.guard, ctx.messageId, now)
          && Compile(CompileContext(after, ProposalOf(obs), obs.suspicion, obs.report)) != BotAction.Noop
          && GuardsClear(s, ctx, now))
    && (d.reason.Some? ==> !Outbound(d))
    && (d.reason == Some(CircuitOpen) ==> CircuitBreaker.IsOpen(s.breaker, now))
    && (d.reason == Some(RateLimit) ==> !RateLimiter.Grants(s.bucket, 1, now))
    && (Outbound(d) || d.reason == Some(CircuitOpen) ==> d.mode in {Normal, ReactOnlyMode})
    && (!Outbound(d) && d.reason == None <==> PastGuard(d) && Silent(d.proposal))
  }

  lemma DecidedFacts(
    s: CoreState, ctx: MessageContext, obs: Observation, now: nat, after: CoreState, d: Decision)
    requires Decides(s, ctx, obs, now, after, d)
    ensures Outcome(s, ctx, obs, now, after, d)
  {
    var r := Recomputed(s, now);
    if Screen(r, ctx) == None && !DuplicateGuard.IsDuplicate(r.guard, ctx.messageId, now) {
      AnsweredFacts(r.(guard := r.guard.(seen := after.guard.seen)), ctx, obs, now);
    }
  }

  lemma Reaches(s: CoreState, ctx: MessageContext, now: nat)
    ensures ReachesGuard(s, ctx, now) <==>
            && CurrentMode(s, now) != FullDisable && !ctx.authorIsBot
            && GuildAllowed(s.runtime, ctx.guildId) && ChannelAllowed(s.runtime, ctx.channelId)
  {
  }

  // ---------- what no call changes ----------

  // Everything set up at the start that no later call changes.
  function Settings(s: CoreState): CoreState {
    s.(runtime := s.runtime.(
         modeOverride := None, killSwitch := false, allowGuilds := [], denyGuilds := [], allowChannels := [],
         denyChannels := []),
       mode := Mode.ModeRecord(Normal, 0, Mode.Recovery),
       guard := s.guard.(seen := map[]),
       breaker := s.breaker.(failures := [], openUntil := None),
       bucket := s.bucket.(tokens := 0.0, lastRefill := 0),
       users := s.users.(nextAllowed := map[]),
       channels := s.channels.(nextAllowed := map[]),
       guilds := s.guilds.(nextAllowed := map[]),
       everyone := s.everyone.(nextAllowed := map[]),
       budget := SessionBudget.BudgetState(0, 0, 0, 0),
       sandboxFailures := [],
       lastDetection := None,
       metrics := Metrics(0, 0, 0, 0, 0, 0, 0, 0, 0, 0))
  }

  lemma MessageKeepsSettings(
    s: CoreState, ctx: MessageContext, obs: Observation, now: nat, after: CoreState, d: Decision)
    requires Outcome(s, ctx, obs, now, after, d)
    ensures Settings(after) == Settings(s)
  {
  }

  lemma ControlKeepsSettings(s: CoreState, control: Control, now: nat)
    ensures Settings(Controlled(s, control, now)) == Settings(s)
  {
  }
}
