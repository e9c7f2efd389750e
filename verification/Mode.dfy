/** src/security/mode.rs: the runtime mode and what last changed it. */
module Mode {
  import opened ResponseCompiler

  datatype Trigger =
    | OperatorOverride
    | EmergencyKillSwitch
    | InvalidToken
    | CircuitBreakerOpen
    | SandboxFailureSpike
    | SessionBudgetLow
    | Recovery

  datatype ModeRecord = ModeRecord(mode: RuntimeMode, changedAt: nat, lastTrigger: Trigger)

  function Transitioned(r: ModeRecord, mode: RuntimeMode, trigger: Trigger, now: nat): ModeRecord {
    if r.mode == mode then r else ModeRecord(mode, now, trigger)
  }

  class ModeState {
    var mode: RuntimeMode
    var changedAt: nat
    var lastTrigger: Trigger

    ghost function State(): ModeRecord
      reads this
    {
      ModeRecord(mode, changedAt, lastTrigger)
    }

    constructor (now: nat)
      ensures State() == ModeRecord(Normal, now, Recovery)
    {
      mode := Normal;
      changedAt := now;
      lastTrigger := Recovery;
    }

    method Transition(mode: RuntimeMode, trigger: Trigger, now: nat) returns (changed: bool)
      modifies this
      ensures changed <==> old(this.mode) != mode
      ensures State() == Transitioned(old(State()), mode, trigger, now) && this.mode == mode
    {
      if this.mode == mode {
        return false;
      }
      this.mode := mode;
      lastTrigger := trigger;
      changedAt := now;
      return true;
    }
  }
}
