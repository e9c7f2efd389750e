/** The mode of every decision as a function of configuration and history, over whole runs. */
module RunModes {
  import opened Strings
  import opened ResponseCompiler
  import opened SlidingWindow
  import opened Governor
  import opened Steps
  import opened Runs
  import CircuitBreaker
  import RateLimiter
  import SessionBudget

  // ---------- the breaker ----------

  function StartBreaker(run: Run): CircuitBreaker.BreakerState {
    CircuitBreaker.BreakerState(
      run.runtime.breakerWindow, Max(run.runtime.breakerThreshold, 1), run.runtime.breakerOpenFor, [], None)
  }

  lemma {:induction false} BreakerFollowsHistory(run: Run, n: nat)
    requires run.Valid() && n <= |run.steps|
    ensures run.At(n).breaker == CircuitBreaker.AfterRefusals(StartBreaker(run), run.Times(n, RefusedRequest))
  {
    if n > 0 {
      hide CircuitBreaker.Recorded, CircuitBreaker.AfterRefusals;
      BreakerFollowsHistory(run, n - 1);
      var step := run.steps[n - 1];
      if step.Message? {
        MessageKeeps(run, n - 1);
      } else {
        ChangeOutcome(run, n - 1);
        if step.control.HttpStatus? {
          CircuitBreaker.OneMoreStatus(
            StartBreaker(run), run.Times(n - 1, RefusedRequest), step.control.status, step.now);
        }
      }
    }
  }

  /** Some window full of refused requests, among those recorded so far, is less than the opening
      time old. */
  ghost predicate Tripped(run: Run, n: nat, now: nat)
    requires n <= |run.steps|
  {
    CircuitBreaker.OpenByHistory(StartBreaker(run), run.Times(n, RefusedRequest), now)
  }

  lemma BreakerByHistory(run: Run, n: nat, now: nat)
    requires run.Valid() && n <= |run.steps| && run.Time(n) <= now
    ensures CircuitBreaker.IsOpen(run.At(n).breaker, now) <==> Tripped(run, n, now)
  {
    BreakerFollowsHistory(run, n);
    TimesOrdered(run, n, RefusedRequest);
    CircuitBreaker.OpenExactlyByHistory(StartBreaker(run), run.Times(n, RefusedRequest), now);
  }

  // ---------- what was last set ----------

  function KillSwitchAt(run: Run, n: nat): bool
    requires n <= |run.steps|
  {
    if n == 0 then run.runtime.killSwitch
    else if run.steps[n - 1].Change? && run.steps[n - 1].control.SetKillSwitch? then run.steps[n - 1].control.enabled
    else KillSwitchAt(run, n - 1)
  }

  function OverrideAt(run: Run, n: nat): Option<RuntimeMode>
    requires n <= |run.steps|
  {
    if n == 0 then run.runtime.modeOverride
    else if run.steps[n - 1].Change? && run.steps[n - 1].control.SetModeOverride? then run.steps[n - 1].control.mode
    else OverrideAt(run, n - 1)
  }

  // The session budget as last reported; 1000 sessions a day, all left, before the first report.
  function BudgetAt(run: Run, n: nat): SessionBudget.BudgetState
    requires n <= |run.steps|
  {
    var watermark := Max(run.runtime.budgetLowWatermark, 1);
    if n == 0 then SessionBudget.BudgetState(1000, 1000, 86400, watermark)
    else if run.steps[n - 1].Change? && run.steps[n - 1].control.UpdateBudget? then
      var report := run.steps[n - 1].control;
      SessionBudget.BudgetState(report.total, report.remaining, report.resetAfterSecs, watermark)
    else BudgetAt(run, n - 1)
  }

  predicate BudgetLowAt(run: Run, n: nat)
    requires n <= |run.steps|
  {
    BudgetAt(run, n).remaining <= Max(run.runtime.budgetLowWatermark, 1)
  }

  lemma {:induction false} SwitchesAsLastSet(run: Run, n: nat)
    requires run.Valid() && n <= |run.steps|
    ensures run.At(n).runtime.killSwitch == KillSwitchAt(run, n)
    ensures run.At(n).runtime.modeOverride == OverrideAt(run, n)
  {
    if n > 0 {
      SwitchesAsLastSet(run, n - 1);
      if run.steps[n - 1].Message? {
        MessageKeeps(run, n - 1);
      } else {
        ChangeOutcome(run, n - 1);
      }
    }
  }

  lemma {:induction false} BudgetAsLastSet(run: Run, n: nat)
    requires run.Valid() && n <= |run.steps|
    ensures run.At(n).budget == BudgetAt(run, n)
    ensures BudgetAt(run, n).lowWatermark == Max(run.runtime.budgetLowWatermark, 1)
  {
    if n > 0 {
      BudgetAsLastSet(run, n - 1);
      if run.steps[n - 1].Message? {
        MessageKeeps(run, n - 1);
      } else {
        SettingsStay(run, n - 1);
        ChangeOutcome(run, n - 1);
      }
    }
  }

  // ---------- sandbox failures ----------

  // The trimmed queue stands for the whole history, as of the last message.
  ghost predicate QueueIsRecent(run: Run, n: nat)
    requires n <= |run.steps|
  {
    && run.LastMessage(n) <= run.Time(n)
    && UpTo(run.Times(n, SandboxFailure), run.LastMessage(n))
    && run.At(n).sandboxFailures == Recent(run.Times(n, SandboxFailure), run.LastMessage(n), run.runtime.sandboxWindow)
  }

  lemma {:induction false} QueueFollowsHistory(run: Run, n: nat)
    requires run.Valid() && n <= |run.steps|
    ensures QueueIsRecent(run, n)
  {
    if n > 0 {
      QueueFollowsHistory(run, n - 1);
      if run.steps[n - 1].Message? {
        QueueAfterMessage(run, n - 1);
      } else {
        ChangeOutcome(run, n - 1);
      }
    }
  }

  lemma QueueAfterMessage(run: Run, n: nat)
    requires run.Valid() && n < |run.steps| && run.steps[n].Message? && QueueIsRecent(run, n)
    ensures QueueIsRecent(run, n + 1)
  {
    hide RateLimiter.Taken, RateLimiter.Grants;
    hide TrimFront, Recent, Sorted;
    var step, window, failures := run.steps[n], run.runtime.sandboxWindow, run.Times(n, SandboxFailure);
    MessageOutcome(run, n);
    SettingsStay(run, n);
    TimesOrdered(run, n, SandboxFailure);
    TrimLater(failures, run.LastMessage(n), step.now, window);
    if FailedAnalysis(step.decision, step.obs) {
      PushAndTrim(failures, step.now, step.now, window);
    }
  }

  // ---------- the mode ----------

  /** The mode a message sees after `n` steps, from configuration and history alone. */
  ghost function ModeByHistory(run: Run, n: nat, now: nat): RuntimeMode
    requires n <= |run.steps|
  {
    if KillSwitchAt(run, n) then FullDisable
    else if OverrideAt(run, n).Some? then OverrideAt(run, n).value
    else if BudgetLowAt(run, n) then ReactOnlyMode
    else if Tripped(run, n, now) then ObserveOnly
    else if |Recent(run.Times(n, SandboxFailure), now, run.runtime.sandboxWindow)| >= run.runtime.sandboxThreshold
    then AuditOnly
    else Normal
  }

  /** Every decision's mode: none of the state that was trimmed away matters. */
  lemma DecisionModeIsModeByHistory(run: Run, n: nat)
    requires run.Valid() && n < |run.steps| && run.steps[n].Message?
    ensures run.steps[n].decision.mode == ModeByHistory(run, n, run.steps[n].now)
  {
    hide RateLimiter.Taken, RateLimiter.Grants;
    var s, now := run.At(n), run.steps[n].now;
    MessageOutcome(run, n);
    SettingsStay(run, n);
    SwitchesAsLastSet(run, n);
    BudgetAsLastSet(run, n);
    BreakerByHistory(run, n, now);
    QueueFollowsHistory(run, n);
    TimesOrdered(run, n, SandboxFailure);
    TrimLater(run.Times(n, SandboxFailure), run.LastMessage(n), now, run.runtime.sandboxWindow);
  }

  ghost predicate OlderThan(times: seq<nat>, age: nat, now: nat) {
    forall k :: 0 <= k < |times| ==> times[k] + age <= now
  }

  /** Once the windows have passed the mode is Normal again, unless an operator or the session budget
      decides; with a sandbox threshold of 0 it never is. */
  lemma ReturnsToNormal(run: Run, n: nat)
    requires run.Valid() && n < |run.steps| && run.steps[n].Message?
    requires !KillSwitchAt(run, n) && OverrideAt(run, n) == None && !BudgetLowAt(run, n)
    ensures var now, mode := run.steps[n].now, run.steps[n].decision.mode;
            && (OlderThan(run.Times(n, RefusedRequest), run.runtime.breakerOpenFor, now)
                && OlderThan(run.Times(n, SandboxFailure), run.runtime.sandboxWindow + 1, now)
                && run.runtime.sandboxThreshold >= 1
                ==> mode == Normal)
            && (run.runtime.sandboxThreshold == 0 ==> mode != Normal)
  {
    DecisionModeIsModeByHistory(run, n);
    var now, failures := run.steps[n].now, run.Times(n, SandboxFailure);
    if OlderThan(failures, run.runtime.sandboxWindow + 1, now) {
      WindowPasses(failures, now, run.runtime.sandboxWindow);
    }
  }

  /** Nothing leaves while the breaker is open by history, whatever the override or the budget says;
      and its reason is reported only when one of them has kept the mode from showing it. */
  lemma NothingLeavesWhileTripped(run: Run, n: nat)
    requires run.Valid() && n < |run.steps| && run.steps[n].Message?
    ensures var step := run.steps[n];
            && (Tripped(run, n, step.now) ==> !Outbound(step.decision))
            && (step.decision.reason == Some(CircuitOpen) ==>
                  Tripped(run, n, step.now) && (OverrideAt(run, n).Some? || BudgetLowAt(run, n)))
  {
    hide RateLimiter.Taken, RateLimiter.Grants;
    MessageOutcome(run, n);
    BreakerByHistory(run, n, run.steps[n].now);
    DecisionModeIsModeByHistory(run, n);
  }
}
