/** Which action a decision of a run carries. */
module RunActions {
  import opened Strings
  import opened SandboxAbi
  import opened Bot
  import opened Detector
  import opened ResponseCompiler
  import opened Steps
  import opened Runs
  import opened RunModes
  import opened RunPace
  import opened RunCooldowns
  import opened RunReasons
  import opened Agreement
  import DuplicateGuard
  import RateLimiter

  lemma ActionIsCompiled(run: Run, n: nat)
    requires run.Valid() && n < |run.steps| && run.steps[n].Message? && run.steps[n].decision.reason == None
    ensures var (d, obs) := (run.steps[n].decision, run.steps[n].obs);
            && d.action == Compile(CompiledContext(run, obs, d.mode))
            && d.proposal == ProposalOf(obs) && d.suspicion == obs.suspicion
  {
    hide RateLimiter.Taken, RateLimiter.Grants;
    MessageOutcome(run, n);
    SettingsStay(run, n);
  }

  /** An action leaves exactly when nothing stands against it: the mode by history, the author, the
      access lists, the duplicate guard, the compiler, the limit on actions, and by history the breaker,
      the bucket and the cooldowns. */
  lemma OutboundExactly(run: Run, n: nat)
    requires run.Valid() && n < |run.steps| && run.steps[n].Message?
    ensures var (s, ctx, obs, now) := (run.At(n), run.steps[n].ctx, run.steps[n].obs, run.steps[n].now);
            var mode := ModeByHistory(run, n, now);
            Outbound(run.steps[n].decision) <==>
            && mode != FullDisable && !ctx.authorIsBot
            && !GuildShut(run, n, ctx) && !ChannelShut(run, n, ctx)
            && !DuplicateGuard.IsDuplicate(s.guard, ctx.messageId, now)
            && Compile(CompiledContext(run, obs, mode)) != BotAction.Noop
            && !Tripped(run, n, now)
            && RateLimiter.Grants(RateLimiter.AfterAsks(StartBucket(run), AskTimes(run, n)), 1, now)
            && run.runtime.maxActionsPerMessage > 0 && !Cooling(run, n, ctx, now)
  {
    hide Compile, Tripped, AnyCooling, Cooling, RateLimiter.Grants, RateLimiter.AfterAsks, AskTimes;
    var (s, ctx, now) := (run.At(n), run.steps[n].ctx, run.steps[n].now);
    MessageOutcome(run, n);
    SettingsStay(run, n);
    DecisionModeIsModeByHistory(run, n);
    BreakerByHistory(run, n, now);
    BucketByHistory(run, n);
    AnyCoolingByHistory(run, n, ctx, now);
    EarlyReasonGiven(run, n);
  }

  /** The governed path through the whole core: a message that passes every guard in Normal mode
      without suspicion gets the action of `analyze_message_with_detector` exactly when the paths
      agree on it, and with a consistent configuration always. */
  lemma GovernorAgrees(run: Run, n: nat, content: string, tokens: TokenScan)
    requires run.Valid() && n < |run.steps| && run.steps[n].Message?
    requires Comparable(content, run.bot, tokens)
    requires var (d, obs) := (run.steps[n].decision, run.steps[n].obs);
             && d.reason == None && d.mode == Normal && obs.suspicion == NotSuspicious
             && obs.report == ReportOf(content, run.bot, tokens)
             && obs.answer == Success(AnswerTo(content, obs.report))
    ensures run.steps[n].decision.action == Governed(content, run.bot, run.runtime.maxSendChars, tokens)
    ensures Consistent(run.bot, run.runtime.maxSendChars) ==>
              run.steps[n].decision.action == Direct(content, run.bot, tokens)
  {
    ActionIsCompiled(run, n);
    if Consistent(run.bot, run.runtime.maxSendChars) {
      ConsistentAgrees(content, run.bot, run.runtime.maxSendChars, tokens);
    }
  }

  /** Containment through the whole core: whatever word the sandbox answered, a message that is sent is
      not blank, within the length limit, and goes out only in Normal mode, without suspicion, under
      the policy that allows it; a row of stamps has at least 2 and at most the trusted count. */
  lemma SentMessageIsContained(run: Run, n: nat, wire: I64)
    requires run.Valid() && n < |run.steps| && run.steps[n].Message?
    requires run.steps[n].decision.action.SendMessage?
    requires run.steps[n].obs.answer.Success? ==> DecodeWire(wire) == Success(run.steps[n].obs.answer.value)
    ensures var (d, obs) := (run.steps[n].decision, run.steps[n].obs);
            var c := CompiledContext(run, obs, d.mode);
            && !IsBlank(d.action.content) && |d.action.content| <= run.runtime.maxSendChars
            && d.mode == Normal && d.suspicion == NotSuspicious && run.bot.actionPolicy == ReactOrSend
            && (|| (c.proposal == SpecialPhrase && d.action.content == Take(run.bot.stampText, run.runtime.maxSendChars))
                || StampedWithin(c, d.action.content))
  {
    hide RateLimiter.Taken, RateLimiter.Grants;
    hide Compile, StampedWithin, IsBlank, Take;
    MessageOutcome(run, n);
    ActionIsCompiled(run, n);
    var c := CompiledContext(run, run.steps[n].obs, run.steps[n].decision.mode);
    SilentCompile(c);
    WireContainment(wire, c);
  }
}
