/** src/security/session_budget.rs: how many gateway sessions are left. */
module SessionBudget {
  datatype BudgetState = BudgetState(total: nat, remaining: nat, resetAfterSecs: nat, lowWatermark: nat)

  function NewBudget(total: nat, remaining: nat, resetAfterSecs: nat, lowWatermark: nat): BudgetState {
    BudgetState(total, remaining, resetAfterSecs, if lowWatermark < 1 then 1 else lowWatermark)
  }

  predicate IsLow(b: BudgetState) { b.remaining <= b.lowWatermark }

  function Consumed(b: BudgetState): BudgetState {
    b.(remaining := if b.remaining == 0 then 0 else b.remaining - 1)
  }

  class Budget {
    const total: nat
    const resetAfterSecs: nat
    const lowWatermark: nat
    var remaining: nat

    ghost function State(): BudgetState
      reads this
    {
      BudgetState(total, remaining, resetAfterSecs, lowWatermark)
    }

    constructor (total: nat, remaining: nat, resetAfterSecs: nat, lowWatermark: nat)
      ensures State() == NewBudget(total, remaining, resetAfterSecs, lowWatermark)
    {
      this.total := total;
      this.remaining := remaining;
      this.resetAfterSecs := resetAfterSecs;
      this.lowWatermark := if lowWatermark < 1 then 1 else lowWatermark;
    }

    method ConsumeIdentify()
      modifies this
      ensures State() == Consumed(old(State()))
      ensures remaining + 1 == old(remaining) || remaining == old(remaining) == 0
      ensures IsLow(old(State())) ==> IsLow(State())
    {
      remaining := if remaining == 0 then 0 else remaining - 1;
    }
  }
}
