/** The handlers around the trusted core (src/infra/discord_handler.rs, src/main.rs,
    src/app/replay.rs): every call goes through one mutex, so what they do to a core is a run. */
module Handler {
  import opened Governor
  import opened Runs
  import Bot
  import CoreGovernor

  class SharedCore {
    const core: CoreGovernor.TrustedCore
    ghost var run: Run

    ghost function Repr(): set<object>
      reads this, core
    {
      {this} + core.Repr()
    }

    /** The calls made so far are a valid run, and it ends in the core's state. */
    ghost predicate Valid()
      reads this, core, core.Repr()
    {
      && this !in core.Repr() && core.Valid()
      && run.Valid() && run.At(|run.steps|) == core.State()
    }

    ghost function Now(): nat
      reads this
    {
      run.Time(|run.steps|)
    }

    constructor (bot: Bot.BotConfig, runtime: RuntimeConfig, now: nat)
      ensures Valid() && fresh(Repr())
      ensures run == Run(bot, runtime, now, [])
    {
      core := new CoreGovernor.TrustedCore(bot, runtime, now);
      run := Run(bot, runtime, now, []);
    }

    // The clock is monotonic and is read under the lock.
    method OnMessage(ctx: MessageContext, obs: Observation, now: nat) returns (decision: Decision)
      requires Valid() && Now() <= now
      modifies Repr()
      ensures Valid() && fresh(Repr() - old(Repr()))
      ensures run == old(run).(steps := old(run).steps + [Message(now, ctx, obs, decision, core.State())])
    {
      decision := core.DecideMessage(ctx, obs, now);
      ghost var step := Message(now, ctx, obs, decision, core.State());
      RunExtends(run, step);
      run := run.(steps := run.steps + [step]);
    }

    method OnControl(control: Control, now: nat)
      requires Valid() && Now() <= now
      modifies Repr()
      ensures Valid() && fresh(Repr() - old(Repr()))
      ensures run == old(run).(steps := old(run).steps + [Change(now, control, core.State())])
    {
      Call(control, now);
      ghost var step := Change(now, control, core.State());
      RunExtends(run, step);
      run := run.(steps := run.steps + [step]);
    }

    method Call(control: Control, now: nat)
      requires this !in core.Repr() && core.Valid()
      modifies core.Repr()
      ensures this !in core.Repr() && core.Valid() && fresh(core.Repr() - old(core.Repr()))
      ensures core.State() == Controlled(old(core.State()), control, now)
    {
      match control
      case HttpStatus(status) => core.RecordHttpStatus(status, now);
      case SetModeOverride(mode) => core.ChangeModeOverride(mode);
      case SetKillSwitch(enabled) => core.ChangeKillSwitch(enabled);
      case SetAccessLists(allowGuilds, denyGuilds, allowChannels, denyChannels) =>
        core.ChangeAccessLists(allowGuilds, denyGuilds, allowChannels, denyChannels);
      case UpdateBudget(total, remaining, resetAfterSecs) =>
        core.UpdateSessionBudget(total, remaining, resetAfterSecs);
    }
  }
}
