/** A run in which a guild is kept waiting although no message from it was answered. */
module GuildExample {
  import opened Strings
  import opened SandboxAbi
  import opened Bot
  import opened Detector
  import opened ResponseCompiler
  import opened Governor
  import opened Steps
  import opened Runs
  import Agreement
  import Cooldown
  import DuplicateGuard
  import RateLimiter
  import SessionBudget

  // ---------- every message has a decision ----------

  lemma GuardOfDecided(s: CoreState, ctx: MessageContext, obs: Observation, now: nat, seen: map<nat, nat>)
    ensures Decided(s, ctx, obs, now, seen).0.guard ==
            if ReachesGuard(s, ctx, now) then s.guard.(seen := seen) else s.guard
  {
    hide Compile, RateLimiter.Taken, RateLimiter.Grants, Answered;
    var r := Recomputed(s, now);
    if Screen(r, ctx) == None && !DuplicateGuard.IsDuplicate(r.guard, ctx.messageId, now) {
      AnsweredFacts(r.(guard := r.guard.(seen := seen)), ctx, obs, now);
    }
  }

  /** While the duplicate guard has room any message can be decided, and goes on from there. */
  lemma MessageDecided(s: CoreState, ctx: MessageContext, obs: Observation, now: nat)
    returns (after: CoreState, d: Decision)
    requires |s.guard.seen| < s.guard.cap
    ensures Decides(s, ctx, obs, now, after, d) && Outcome(s, ctx, obs, now, after, d)
  {
    hide Decided, ReachesGuard, Outcome;
    var kept := DuplicateGuard.Evicted(s.guard, now);
    DuplicateGuard.SubsetSize(kept.Keys, s.guard.seen.Keys);
    assert |kept.Keys| == |kept| && |s.guard.seen.Keys| == |s.guard.seen|;
    var seen := if ReachesGuard(s, ctx, now) then kept[ctx.messageId := now] else s.guard.seen;
    var result := Decided(s, ctx, obs, now, seen);
    after, d := result.0, result.1;
    GuardOfDecided(s, ctx, obs, now, seen);
    DecidedFacts(s, ctx, obs, now, after, d);
  }

  // ---------- the two messages ----------

  // The runtime limits of config/oo-bot.yaml.
  const SHIPPED_RUNTIME := RuntimeConfig(
    180_000, 8192, 900, 400, 250, 100, 20.0, 30, 1, Agreement.DEFAULT_MAX_SEND_CHARS, 60_000, 64, 120_000, 30_000, 10,
    [], [], [], [], None, false, 5)

  // One hit, which the analyzer answers with a reaction.
  const ONE_HIT := Observation(
    NotSuspicious, Report("morphological_reading", [], 1, 0, 1, false), Success(Proposal.ReactOnce))

  const FIRST := MessageContext(1, 1, 1, None, false)
  const SECOND := MessageContext(2, 2, 2, Some(7), false)

  // A core that nothing has happened to that could hold a reaction back.
  ghost predicate Calm(s: CoreState, now: nat) {
    && s.bot == Agreement.DEFAULT_BOT && s.runtime == SHIPPED_RUNTIME
    && s.budget == SessionBudget.NewBudget(1000, 1000, 86_400, 5)
    && s.breaker.openUntil == None && s.sandboxFailures == []
    && RateLimiter.Grants(s.bucket, 1, now)
  }

  lemma CalmReacts(s: CoreState, ctx: MessageContext, now: nat, after: CoreState, d: Decision)
    requires Calm(s, now) && Outcome(s, ctx, ONE_HIT, now, after, d)
    requires !ctx.authorIsBot && !DuplicateGuard.IsDuplicate(s.guard, ctx.messageId, now)
    ensures d.reason == if AnyCooling(s, ctx, now) then Some(SuppressReason.Cooldown) else None
    ensures Outbound(d) <==> !AnyCooling(s, ctx, now)
    ensures PastScreen(d) && after.sandboxFailures == [] && after.bucket == RateLimiter.Taken(s.bucket, 1, now)
  {
    hide Compile, AnyCooling, DuplicateGuard.IsDuplicate, DuplicateGuard.Marked, RateLimiter.Taken, RateLimiter.Grants;
    Reaches(s, ctx, now);
    ReactionCompiled(CompileContext(after, Proposal.ReactOnce, NotSuspicious, ONE_HIT.report));
  }

  lemma ReactionCompiled(c: Context)
    requires c.bot == Agreement.DEFAULT_BOT && c.mode == Normal && c.suspicion == NotSuspicious
    requires c.proposal == Proposal.ReactOnce
    ensures Compile(c) != BotAction.Noop
  {
    ReactExactly(c);
  }

  lemma FullBucketGrants(now: nat)
    ensures var b := RateLimiter.NewBucket(30, 20.0, 0);
            && RateLimiter.Grants(b, 1, 0) && RateLimiter.Grants(RateLimiter.Taken(b, 1, 0), 1, now)
  {
    var b := RateLimiter.NewBucket(30, 20.0, 0);
    RateLimiter.TakenValid(b, 1, 0);
    RateLimiter.RefilledValid(RateLimiter.Taken(b, 1, 0), now);
  }

  /** Under the shipped limits: the first message, from outside any guild, is answered at 0 ms. The
      second, 50 ms later by another author in another channel of guild 7, is refused for the global
      cooldown alone. Guild 7 then cools until 300 ms although none of its messages was answered. */
  lemma UnansweredGuildWaits() returns (run: Run)
    ensures run.Valid() && run.bot == Agreement.DEFAULT_BOT && run.runtime == SHIPPED_RUNTIME && |run.steps| == 2
    ensures run.steps[0].Message? && run.steps[0].ctx == FIRST && run.steps[0].now == 0
    ensures run.steps[1].Message? && run.steps[1].ctx == SECOND && run.steps[1].now == 50
    ensures Outbound(run.steps[0].decision)
    ensures run.steps[1].decision.reason == Some(SuppressReason.Cooldown) && OnlyGlobalCooling(run.At(1), SECOND, 50)
    ensures Cooldown.IsCooling(run.At(2).guilds, 7, 299) && !Cooldown.IsCooling(run.At(1).guilds, 7, 50)
  {
    hide Outcome, Decides, Run.Valid, RateLimiter.Grants, RateLimiter.Taken;
    var s0 := NewCore(Agreement.DEFAULT_BOT, SHIPPED_RUNTIME, 0);
    FullBucketGrants(50);
    var s1, d1 := MessageDecided(s0, FIRST, ONE_HIT, 0);
    CalmReacts(s0, FIRST, 0, s1, d1);
    AfterFirst(s0, s1, d1);
    var s2, d2 := MessageDecided(s1, SECOND, ONE_HIT, 50);
    CalmReacts(s1, SECOND, 50, s2, d2);
    AfterSecond(s1, s2, d2);
    var start := Run(Agreement.DEFAULT_BOT, SHIPPED_RUNTIME, 0, []);
    var one := start.(steps := start.steps + [Message(0, FIRST, ONE_HIT, d1, s1)]);
    run := one.(steps := one.steps + [Message(50, SECOND, ONE_HIT, d2, s2)]);
    NothingHappened(start);
    RunExtends(start, Message(0, FIRST, ONE_HIT, d1, s1));
    RunExtends(one, Message(50, SECOND, ONE_HIT, d2, s2));
  }

  lemma NothingHappened(run: Run)
    requires run.steps == []
    ensures run.Valid()
  {
  }

  lemma AfterFirst(s0: CoreState, s1: CoreState, d1: Decision)
    requires s0 == NewCore(Agreement.DEFAULT_BOT, SHIPPED_RUNTIME, 0)
    requires Outcome(s0, FIRST, ONE_HIT, 0, s1, d1) && Outbound(d1) && PastScreen(d1)
    ensures s1.bot == s0.bot && s1.runtime == s0.runtime && s1.budget == s0.budget && s1.breaker == s0.breaker
    ensures s1.users.nextAllowed == map[1 := 900] && s1.channels.nextAllowed == map[1 := 400]
    ensures s1.guilds == s0.guilds && s1.everyone.nextAllowed == map[0 := 100]
    ensures s1.guard.seen == map[1 := 0] && s1.guard.cap == 8192
  {
    hide Compile, CurrentMode, ReachesGuard, FailuresAfter, RateLimiter.Grants, RateLimiter.Taken;
    assert DuplicateGuard.Evicted(s0.guard, 0) == map[];
  }

  lemma AfterSecond(s1: CoreState, s2: CoreState, d2: Decision)
    requires Outcome(s1, SECOND, ONE_HIT, 50, s2, d2) && d2.reason == Some(SuppressReason.Cooldown) && !Outbound(d2)
    requires s1.guilds == Cooldown.CooldownState(250, map[]) && OnlyGlobalCooling(s1, SECOND, 50)
    ensures Cooldown.IsCooling(s2.guilds, 7, 299)
  {
    hide Compile, CurrentMode, ReachesGuard, FailuresAfter, RateLimiter.Grants, RateLimiter.Taken, AnyCooling;
    hide OnlyGlobalCooling;
  }
}
