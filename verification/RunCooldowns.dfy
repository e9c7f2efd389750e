/** Cooldowns over whole runs: when a key is cooling, by history alone, and what that keeps apart. */
module RunCooldowns {
  import opened Strings
  import opened SlidingWindow
  import opened Arithmetic
  import opened Governor
  import opened Steps
  import opened Runs
  import opened RunPace
  import Cooldown
  import RateLimiter

  datatype Scope = PerUser | PerChannel | PerGuild | Global

  function MapOf(s: CoreState, scope: Scope): Cooldown.CooldownState {
    match scope
    case PerUser => s.users
    case PerChannel => s.channels
    case PerGuild => s.guilds
    case Global => s.everyone
  }

  function KeyOf(ctx: MessageContext, scope: Scope): Option<nat> {
    match scope
    case PerUser => Some(ctx.authorId)
    case PerChannel => Some(ctx.channelId)
    case PerGuild => ctx.guildId
    case Global => Some(0)
  }

  function LengthOf(runtime: RuntimeConfig, scope: Scope): nat {
    match scope
    case PerUser => runtime.userCooldown
    case PerChannel => runtime.channelCooldown
    case PerGuild => runtime.guildCooldown
    case Global => runtime.globalCooldown
  }

  // ---------- cooling by history ----------

  /** Message `i` marked this key: it was outbound, or the key is its guild and it was refused while only
      the global cooldown stood against it. */
  ghost predicate Marks(run: Run, i: nat, scope: Scope, key: nat)
    requires i < |run.steps|
    decreases i, 1
  {
    && run.steps[i].Message? && KeyOf(run.steps[i].ctx, scope) == Some(key)
    && (|| Outbound(run.steps[i].decision)
        || (&& scope == PerGuild && run.steps[i].decision.reason == Some(SuppressReason.Cooldown)
            && !Cools(run, i, PerUser, run.steps[i].ctx.authorId, run.steps[i].now)
            && !Cools(run, i, PerChannel, run.steps[i].ctx.channelId, run.steps[i].now)
            && !Cools(run, i, PerGuild, key, run.steps[i].now)))
  }

  /** Some message before step `n` marked the key less than its cooldown ago. */
  ghost predicate Cools(run: Run, n: nat, scope: Scope, key: nat, now: nat)
    requires n <= |run.steps|
    decreases n, 0
  {
    exists i: nat :: i < n && Marks(run, i, scope, key) && now < run.steps[i].now + LengthOf(run.runtime, scope)
  }

  ghost predicate Cooling(run: Run, n: nat, ctx: MessageContext, now: nat)
    requires n <= |run.steps|
  {
    exists scope :: KeyOf(ctx, scope).Some? && Cools(run, n, scope, KeyOf(ctx, scope).value, now)
  }

  lemma CooldownLengths(run: Run, n: nat, scope: Scope)
    requires run.Valid() && n <= |run.steps|
    ensures MapOf(run.At(n), scope).ttl == LengthOf(run.runtime, scope)
  {
    SettingsStay(run, n);
  }

  // What one message does to one map.
  lemma MapAfterMessage(run: Run, n: nat, scope: Scope)
    requires run.Valid() && n < |run.steps| && run.steps[n].Message?
    ensures var (s, step) := (run.At(n), run.steps[n]);
            var marked := Outbound(step.decision)
                          || (scope == PerGuild && MarksGuildOnly(s, step.ctx, step.now, step.decision));
            MapOf(run.At(n + 1), scope) ==
            if marked && KeyOf(step.ctx, scope).Some?
            then Cooldown.Marked(MapOf(s, scope), KeyOf(step.ctx, scope).value, step.now) else MapOf(s, scope)
    ensures run.steps[n].decision.reason == Some(SuppressReason.Cooldown) ==>
              AnyCooling(run.At(n), run.steps[n].ctx, run.steps[n].now)
  {
    hide RateLimiter.Taken, RateLimiter.Grants;
    hide Cooldown.Marked, AnyCooling, OnlyGlobalCooling;
    MessageOutcome(run, n);
  }

  lemma MapAfterChange(run: Run, n: nat, scope: Scope)
    requires run.Valid() && n < |run.steps| && run.steps[n].Change?
    ensures MapOf(run.At(n + 1), scope) == MapOf(run.At(n), scope)
  {
    ChangeOutcome(run, n);
  }

  lemma OnlyGlobal(s: CoreState, ctx: MessageContext, now: nat)
    requires AnyCooling(s, ctx, now)
    ensures OnlyGlobalCooling(s, ctx, now) <==>
            && !Cooldown.IsCooling(s.users, ctx.authorId, now) && !Cooldown.IsCooling(s.channels, ctx.channelId, now)
            && !(ctx.guildId.Some? && Cooldown.IsCooling(s.guilds, ctx.guildId.value, now))
  {
  }

  // A message marks a key in the map exactly when it does so by history.
  lemma {:induction false} MarksInMap(run: Run, n: nat, scope: Scope, key: nat)
    requires run.Valid() && n < |run.steps|
    ensures Marks(run, n, scope, key) ==>
              MapOf(run.At(n + 1), scope) == Cooldown.Marked(MapOf(run.At(n), scope), key, run.steps[n].now)
    ensures !Marks(run, n, scope, key) ==>
              forall now :: Cooldown.IsCooling(MapOf(run.At(n + 1), scope), key, now)
                       <==> Cooldown.IsCooling(MapOf(run.At(n), scope), key, now)
    decreases n, 1
  {
    var s, step := run.At(n), run.steps[n];
    if step.Change? {
      MapAfterChange(run, n, scope);
    } else {
      MapAfterMessage(run, n, scope);
      if step.decision.reason == Some(SuppressReason.Cooldown) && scope == PerGuild && step.ctx.guildId == Some(key) {
        OnlyGlobal(s, step.ctx, step.now);
        CoolingByHistory(run, n, PerUser, step.ctx.authorId, step.now);
        CoolingByHistory(run, n, PerChannel, step.ctx.channelId, step.now);
        CoolingByHistory(run, n, PerGuild, key, step.now);
      }
    }
  }

  /** In every reachable state a key is cooling if and only if the history of markings says so. */
  lemma {:induction false} CoolingByHistory(run: Run, n: nat, scope: Scope, key: nat, now: nat)
    requires run.Valid() && n <= |run.steps|
    ensures Cooldown.IsCooling(MapOf(run.At(n), scope), key, now) <==> Cools(run, n, scope, key, now)
    decreases n, 0
  {
    if n > 0 {
      var t, length := run.steps[n - 1].now, LengthOf(run.runtime, scope);
      CoolingByHistory(run, n - 1, scope, key, now);
      MarksInMap(run, n - 1, scope, key);
      CooldownLengths(run, n - 1, scope);
      forall i: nat | i < n && Marks(run, i, scope, key)
        ensures run.steps[i].now + length <= t + length
      {
        TimeGrows(run, i + 1, n);
      }
    }
  }

  /** No cooldown stands against a message exactly when none of its keys cools by history. */
  lemma AnyCoolingByHistory(run: Run, n: nat, ctx: MessageContext, now: nat)
    requires run.Valid() && n <= |run.steps|
    ensures AnyCooling(run.At(n), ctx, now) <==> Cooling(run, n, ctx, now)
  {
    forall scope | KeyOf(ctx, scope).Some?
      ensures Cooldown.IsCooling(MapOf(run.At(n), scope), KeyOf(ctx, scope).value, now)
         <==> Cools(run, n, scope, KeyOf(ctx, scope).value, now)
    {
      CoolingByHistory(run, n, scope, KeyOf(ctx, scope).value, now);
    }
    CoolingOfEach(run.At(n), ctx, now);
  }

  lemma CoolingOfEach(s: CoreState, ctx: MessageContext, now: nat)
    ensures AnyCooling(s, ctx, now) <==>
            exists scope :: KeyOf(ctx, scope).Some? && Cooldown.IsCooling(MapOf(s, scope), KeyOf(ctx, scope).value, now)
  {
    if AnyCooling(s, ctx, now) {
      var scope := if Cooldown.IsCooling(s.users, ctx.authorId, now) then PerUser
                   else if Cooldown.IsCooling(s.channels, ctx.channelId, now) then PerChannel
                   else if Cooldown.IsCooling(s.everyone, 0, now) then Global else PerGuild;
      assert KeyOf(ctx, scope).Some? && Cooldown.IsCooling(MapOf(s, scope), KeyOf(ctx, scope).value, now);
    }
  }

  // ---------- what that keeps apart ----------

  lemma ScopeSpacing(run: Run, i: nat, j: nat, scope: Scope)
    requires run.Valid() && i < j < |run.steps|
    requires Is(run.steps[i], OutboundMessage) && Is(run.steps[j], OutboundMessage)
    requires KeyOf(run.steps[i].ctx, scope).Some? && KeyOf(run.steps[i].ctx, scope) == KeyOf(run.steps[j].ctx, scope)
    ensures run.steps[j].now - run.steps[i].now >= LengthOf(run.runtime, scope)
  {
    hide RateLimiter.Taken, RateLimiter.Grants;
    var key, ctx, now := KeyOf(run.steps[i].ctx, scope).value, run.steps[j].ctx, run.steps[j].now;
    MessageOutcome(run, j);
    CoolingOfEach(run.At(j), ctx, now);
    CoolingByHistory(run, j, scope, key, now);
    assert Marks(run, i, scope, key);
  }

  /** Any two outbound decisions are at least the global cooldown apart, and those for one author,
      channel or guild at least its cooldown. */
  lemma CooldownSpacing(run: Run, i: nat, j: nat)
    requires run.Valid() && i < j < |run.steps|
    requires Is(run.steps[i], OutboundMessage) && Is(run.steps[j], OutboundMessage)
    ensures var (a, b, gap) := (run.steps[i].ctx, run.steps[j].ctx, run.steps[j].now - run.steps[i].now);
            && gap >= run.runtime.globalCooldown
            && (a.authorId == b.authorId ==> gap >= run.runtime.userCooldown)
            && (a.channelId == b.channelId ==> gap >= run.runtime.channelCooldown)
            && (a.guildId.Some? && a.guildId == b.guildId ==> gap >= run.runtime.guildCooldown)
  {
    var (a, b) := (run.steps[i].ctx, run.steps[j].ctx);
    ScopeSpacing(run, i, j, Global);
    if a.authorId == b.authorId { ScopeSpacing(run, i, j, PerUser); }
    if a.channelId == b.channelId { ScopeSpacing(run, i, j, PerChannel); }
    if a.guildId.Some? && a.guildId == b.guildId { ScopeSpacing(run, i, j, PerGuild); }
  }

  lemma {:induction false} TimeOfStep(run: Run, n: nat, kind: Kind, k: nat) returns (i: nat)
    requires n <= |run.steps| && k < |run.Times(n, kind)|
    ensures i < n && Is(run.steps[i], kind) && run.steps[i].now == run.Times(n, kind)[k]
  {
    if Is(run.steps[n - 1], kind) && k == |run.Times(n, kind)| - 1 {
      i := n - 1;
    } else {
      i := TimeOfStep(run, n - 1, kind, k);
    }
  }

  lemma {:induction false} OutboundApart(run: Run, n: nat)
    requires run.Valid() && n <= |run.steps|
    ensures Apart(run.Times(n, OutboundMessage), run.runtime.globalCooldown)
  {
    if n > 0 {
      var before := run.Times(n - 1, OutboundMessage);
      OutboundApart(run, n - 1);
      if Is(run.steps[n - 1], OutboundMessage) {
        forall k | 0 <= k < |before|
          ensures before[k] + run.runtime.globalCooldown <= run.steps[n - 1].now
        {
          var i := TimeOfStep(run, n - 1, OutboundMessage, k);
          CooldownSpacing(run, i, n - 1);
        }
      }
    }
  }

  /** With a global cooldown the outbound decisions in a closed window are at most one more than the
      cooldowns that fit into it. */
  lemma OutboundCooldownBound(run: Run, from: nat, to: nat)
    requires run.Valid() && from <= to && run.runtime.globalCooldown > 0
    ensures |OutboundIn(run, |run.steps|, from, to)| <= (to - from) / run.runtime.globalCooldown + 1
  {
    hide Span, Apart, Run.Times;
    OutboundApart(run, |run.steps|);
    HowManyFit(run.Times(|run.steps|, OutboundMessage), run.runtime.globalCooldown, from, to);
  }

  lemma HowManyFit(times: seq<nat>, gap: nat, from: nat, to: nat)
    requires Apart(times, gap) && gap > 0 && from <= to
    ensures |Span(times, from, to)| <= (to - from) / gap + 1
  {
    hide Apart;
    var span := Span(times, from, to);
    ApartFit(times, gap, from, to);
    hide Span;
    if span != [] {
      assert (|span| - 1) * gap <= to - from;
      DivisionBound(|span| - 1, gap, to - from);
    }
  }
}
