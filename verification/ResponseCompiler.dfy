/** src/security/response_compiler.rs: from a proposal to an action the bot may take. */
module ResponseCompiler {
  import opened Strings
  import opened SandboxAbi
  import opened Bot
  import opened Rendering
  import Template

  datatype RuntimeMode = Normal | ObserveOnly | ReactOnlyMode | AuditOnly | FullDisable
  datatype Suspicion = NotSuspicious | Soft | Hard

  datatype Context = Context(
    proposal: Proposal,
    mode: RuntimeMode,
    suspicion: Suspicion,
    bot: BotConfig,
    maxSendChars: nat,
    matchedBackend: string,
    matchedReading: string,
    countCap: nat,
    detectorTotal: nat)

  function Min(a: nat, b: nat): nat { if a < b then a else b }
  function Max(a: nat, b: nat): nat { if a < b then b else a }

  // `detector_total_count.min(count_cap.max(1))`, and the repetitions a stamped proposal gets.
  function CappedCount(ctx: Context): nat { Min(ctx.detectorTotal, Max(ctx.countCap, 1)) }

  function StampRepeats(ctx: Context): nat
    requires ctx.proposal.SendStamped?
  {
    Min(ctx.proposal.count, Max(CappedCount(ctx), 1))
  }

  /** `proposal_to_action`. */
  function ProposalToAction(ctx: Context): BotAction {
    match ctx.proposal
    case Noop => BotAction.Noop
    case Defer => BotAction.Noop
    case Reject(_) => BotAction.Noop
    case SuspiciousInput => BotAction.Noop
    case SpecialPhrase => SendMessage(ctx.bot.stampText)
    case ReactOnce => ctx.bot.AsReact()
    case SendStamped(_) =>
      if StampRepeats(ctx) <= 1 then ctx.bot.AsReact()
      else
        match Render(ctx.bot.sendTemplate, StampRepeats(ctx), ctx.bot.stampText, ctx.matchedBackend, ctx.matchedReading)
        case None => BotAction.Noop
        case Some(content) => if IsBlank(content) then BotAction.Noop else SendMessage(content)
  }

  function Soften(suspicion: Suspicion, action: BotAction, bot: BotConfig): BotAction {
    if suspicion == Soft && action.SendMessage? then bot.AsReact() else action
  }

  /** `apply_mode_gate`. */
  function ApplyModeGate(mode: RuntimeMode, action: BotAction, bot: BotConfig): BotAction {
    match mode
    case Normal => action
    case ObserveOnly => BotAction.Noop
    case AuditOnly => BotAction.Noop
    case FullDisable => BotAction.Noop
    case ReactOnlyMode => if action.SendMessage? then bot.AsReact() else action
  }

  /** `enforce_send_cap`. */
  function EnforceSendCap(action: BotAction, maxSendChars: nat): BotAction {
    match action
    case SendMessage(content) =>
      var capped := Take(content, maxSendChars);
      if IsBlank(capped) then BotAction.Noop else SendMessage(capped)
    case other => other
  }

  /** `compile_response`. */
  function Compile(ctx: Context): BotAction {
    var softened := Soften(ctx.suspicion, ProposalToAction(ctx), ctx.bot);
    var gated := ApplyModeGate(ctx.mode, softened, ctx.bot);
    var capped := EnforceSendCap(ApplyPolicy(gated, ctx.bot), ctx.maxSendChars);
    if IsInvalid(capped) then BotAction.Noop else capped
  }

  // The text a proposal asks to send, before any gate.
  function IntendedText(ctx: Context): Option<string> {
    match ProposalToAction(ctx)
    case SendMessage(content) => Some(content)
    case _ => None
  }

  /** How many stamps a proposal stands for: no more than the trusted detector's total and the cap. */
  function TrustedCount(ctx: Context): nat {
    match ctx.proposal
    case ReactOnce => 1
    case SendStamped(count) => Max(Min(count, Min(ctx.detectorTotal, ctx.countCap)), 1)
    case _ => 0
  }

  /** What a proposal asks for: text exactly for a special phrase, which is the stamp, and for a trusted
      count of at least 2 whose rendering is not blank; a reaction exactly for a trusted count of 1. */
  lemma IntentExactly(ctx: Context)
    ensures var rendered := Render(
              ctx.bot.sendTemplate, TrustedCount(ctx), ctx.bot.stampText, ctx.matchedBackend, ctx.matchedReading);
            IntendedText(ctx) ==
            if ctx.proposal == SpecialPhrase then Some(ctx.bot.stampText)
            else if TrustedCount(ctx) >= 2 && rendered.Some? && !IsBlank(rendered.value) then rendered
            else None
    ensures ProposalToAction(ctx).React? <==> TrustedCount(ctx) == 1
  {
    hide Render, IsBlank;
  }

  // A message may leave only here.
  predicate SendingOpen(ctx: Context) {
    ctx.mode == Normal && ctx.suspicion != Soft && ctx.bot.actionPolicy == ReactOrSend
  }

  /** When a message is sent, and which: exactly when the proposal asks for text (`IntentExactly`), no gate
      stands against it and the capped text is not blank. */
  lemma SendExactly(ctx: Context)
    ensures Compile(ctx).SendMessage? <==>
            SendingOpen(ctx) && IntendedText(ctx).Some? && !IsBlank(Take(IntendedText(ctx).value, ctx.maxSendChars))
    ensures Compile(ctx).SendMessage? ==> Compile(ctx).content == Take(IntendedText(ctx).value, ctx.maxSendChars)
  {
  }

  /** When a reaction is made, and which: exactly when it is valid, the trusted count is 1 or a message is
      downgraded, and reactions are allowed at all. */
  lemma ReactExactly(ctx: Context)
    ensures Compile(ctx).React? <==>
            && ctx.bot.reaction.emojiId != 0 && ctx.bot.reaction.emojiName != ""
            && ctx.mode in {Normal, ReactOnlyMode}
            && ctx.bot.actionPolicy != NoOutbound
            && (TrustedCount(ctx) == 1 || (IntendedText(ctx).Some? && !SendingOpen(ctx)))
    ensures Compile(ctx).React? ==> Compile(ctx) == React(
              ctx.bot.reaction.emojiId, ctx.bot.reaction.emojiName, ctx.bot.reaction.animated)
  {
    hide Render, IsBlank;
    IntentExactly(ctx);
  }

  // A stamped message: its rendered row, cut to the limit, with a trusted number of stamps.
  predicate StampedWithin(ctx: Context, content: string) {
    && ctx.proposal.SendStamped?
    && 2 <= StampRepeats(ctx) <= Min(ctx.detectorTotal, Min(Max(ctx.countCap, 1), 255))
    && !Contains(content, "${")
    && var rendered := Render(
         ctx.bot.sendTemplate, StampRepeats(ctx), ctx.bot.stampText, ctx.matchedBackend, ctx.matchedReading);
       rendered.Some? && content == Take(rendered.value, ctx.maxSendChars)
  }

  /** Containment of the sandbox: whatever 64-bit word it answers, a message that results is not
      blank, within the length limit, allowed by mode, policy and suspicion, and a stamped one is
      rendered with at least 2 and at most the trusted detector's capped count of repetitions. */
  lemma WireContainment(wire: I64, ctx: Context)
    requires DecodeWire(wire) == Success(ctx.proposal) && Compile(ctx).SendMessage?
    ensures var content := Compile(ctx).content;
            && !IsBlank(content) && |content| <= ctx.maxSendChars
            && ctx.mode == Normal && ctx.suspicion != Soft && ctx.bot.actionPolicy == ReactOrSend
            && (|| (ctx.proposal == SpecialPhrase && content == Take(ctx.bot.stampText, ctx.maxSendChars))
                || StampedWithin(ctx, content))
  {
    hide Compile, Render, IsBlank, Contains, DecodeWire, KindOf, AuxOf;
    SendExactly(ctx);
    DecodeNormalises(wire);
    if ctx.proposal.SendStamped? {
      var n := StampRepeats(ctx);
      RenderedHasNoOpen(ctx.bot.sendTemplate, n, ctx.bot.stampText, ctx.matchedBackend, ctx.matchedReading);
      Template.NoOpenIff(IntendedText(ctx).value);
      Template.NoOpenIff(Compile(ctx).content);
    }
  }

  // The placeholders a template uses whose values come from the message or the configuration.
  ghost predicate Uses(template: string, key: Template.KeyIndex) {
    Template.Parse(template).Parsed? && Template.Hole(key) in Template.Parse(template).segments
  }

  /** Start-up validation and rendering fit together: under a validated configuration a stamped proposal
      renders whenever those of stamp, backend and reading that the template uses are inert when
      sanitised. What it does not use may be empty, as the reading of a message without token hits is. */
  lemma ValidatedRenders(bot: BotConfig, count: nat, backend: string, reading: string)
    requires bot.Validated()
    requires Uses(bot.sendTemplate, 1) ==> Template.Inert(Sanitise(bot.stampText))
    requires Uses(bot.sendTemplate, 2) ==> Template.Inert(Sanitise(backend))
    requires Uses(bot.sendTemplate, 3) ==> Template.Inert(Sanitise(reading))
    ensures Render(bot.sendTemplate, count, bot.stampText, backend, reading).Some?
  {
    hide Sanitise, Template.Parse, Template.Inert;
    var values := Values(count, bot.stampText, backend, reading);
    var segments := Template.Parse(bot.sendTemplate).segments;
    CountIsInert(count);
    ActionKindIsInert();
    forall s | s in segments && s.Hole?
      ensures Template.Inert(values[s.key])
    {
      assert s == Template.Hole(s.key);
    }
    Template.InertValuesRender(bot.sendTemplate, segments, values);
  }
}
