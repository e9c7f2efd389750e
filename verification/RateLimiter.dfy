/** src/security/rate_limiter.rs: the token bucket. Times are milliseconds; tokens are real numbers,
    so floating-point rounding is not modelled. */
module RateLimiter {
  import opened SlidingWindow

  datatype BucketState = BucketState(capacity: real, refillPerSec: real, tokens: real, lastRefill: nat)
  {
    predicate Valid() {
      capacity >= 1.0 && refillPerSec >= 0.1 && 0.0 <= tokens <= capacity
    }
  }

  function Seconds(ms: nat): real { ms as real / 1000.0 }

  function NewBucket(capacity: nat, refillPerSec: real, now: nat): (b: BucketState)
    ensures b.Valid()
  {
    var cap := if capacity < 1 then 1.0 else capacity as real;
    BucketState(cap, if refillPerSec < 0.1 then 0.1 else refillPerSec, cap, now)
  }

  // What accrues in `ms` milliseconds: `GainIsProduct` says it is seconds times rate. Counted up
  // millisecond by millisecond it is additive by construction.
  function Gain(rate: real, ms: nat): real {
    if ms == 0 then 0.0 else Gain(rate, ms - 1) + rate / 1000.0
  }

  lemma {:induction false} GainIsProduct(rate: real, ms: nat)
    ensures Gain(rate, ms) == Seconds(ms) * rate
  {
    if ms > 0 {
      GainIsProduct(rate, ms - 1);
      assert Seconds(ms) == Seconds(ms - 1) + 0.001;
    }
  }

  lemma AccruesInTime(rate: real, ms: nat)
    ensures Gain(rate, ms) >= 1.0 <==> ms as real / 1000.0 * rate >= 1.0
  {
    GainIsProduct(rate, ms);
  }

  lemma {:induction false} GainAdds(rate: real, a: nat, b: nat)
    ensures Gain(rate, a + b) == Gain(rate, a) + Gain(rate, b)
  {
    if b > 0 {
      GainAdds(rate, a, b - 1);
    }
  }

  lemma {:induction false} GainNonNegative(rate: real, ms: nat)
    requires rate >= 0.0
    ensures Gain(rate, ms) >= 0.0
  {
    if ms > 0 {
      GainNonNegative(rate, ms - 1);
    }
  }

  function Refilled(b: BucketState, now: nat): BucketState {
    if now <= b.lastRefill then b
    else
      var filled := b.tokens + Gain(b.refillPerSec, now - b.lastRefill);
      b.(tokens := if filled < b.capacity then filled else b.capacity, lastRefill := now)
  }

  function Needed(amount: nat): real { if amount < 1 then 1.0 else amount as real }

  predicate Grants(b: BucketState, amount: nat, now: nat) {
    Refilled(b, now).tokens >= Needed(amount)
  }

  /** The bucket after one `try_take`, granted or not. */
  function Taken(b: BucketState, amount: nat, now: nat): BucketState {
    var full := Refilled(b, now);
    if Grants(b, amount, now) then full.(tokens := full.tokens - Needed(amount)) else full
  }

  /** What a request for any amount finds and leaves: the tokens that were there and what has accrued since,
      up to the capacity; it is granted when at least one token, or the amount, is there, and then takes it. */
  lemma TakenExactly(b: BucketState, amount: nat, now: nat)
    requires b.Valid()
    ensures var accrued := if now <= b.lastRefill then 0.0 else (now - b.lastRefill) as real / 1000.0 * b.refillPerSec;
            var there := if accrued == 0.0 || b.tokens + accrued < b.capacity then b.tokens + accrued else b.capacity;
            var needed := if amount == 0 then 1.0 else amount as real;
            && (Grants(b, amount, now) <==> there >= needed)
            && Taken(b, amount, now) == b.(
                 tokens := if there >= needed then there - needed else there,
                 lastRefill := if now <= b.lastRefill then b.lastRefill else now)
  {
    if now > b.lastRefill {
      GainIsProduct(b.refillPerSec, now - b.lastRefill);
    }
  }

  class TokenBucket {
    const capacity: real
    const refillPerSec: real
    var tokens: real
    var lastRefill: nat

    ghost function State(): BucketState
      reads this
    {
      BucketState(capacity, refillPerSec, tokens, lastRefill)
    }

    constructor (capacity: nat, refillPerSec: real, now: nat)
      ensures State() == NewBucket(capacity, refillPerSec, now)
    {
      var cap := if capacity < 1 then 1.0 else capacity as real;
      this.capacity := cap;
      this.refillPerSec := if refillPerSec < 0.1 then 0.1 else refillPerSec;
      tokens := cap;
      lastRefill := now;
    }

    method TryTake(amount: nat, now: nat) returns (granted: bool)
      modifies this
      ensures granted <==> Grants(old(State()), amount, now)
      ensures State() == Taken(old(State()), amount, now)
    {
      Refill(now);
      var needed := if amount < 1 then 1.0 else amount as real;
      if tokens >= needed {
        tokens := tokens - needed;
        granted := true;
      } else {
        granted := false;
      }
    }

    method Refill(now: nat)
      modifies this
      ensures State() == Refilled(old(State()), now)
    {
      if now <= lastRefill {
        return;
      }
      GainIsProduct(refillPerSec, now - lastRefill);
      var filled := tokens + Seconds(now - lastRefill) * refillPerSec;
      tokens := if filled < capacity then filled else capacity;
      lastRefill := now;
    }
  }

  // ---------- how fast tokens can be spent ----------

  lemma RefilledValid(b: BucketState, now: nat)
    requires b.Valid()
    ensures Refilled(b, now).Valid() && Refilled(b, now).tokens >= b.tokens
  {
    if now > b.lastRefill {
      GainNonNegative(b.refillPerSec, now - b.lastRefill);
    }
  }

  lemma TakenValid(b: BucketState, amount: nat, now: nat)
    requires b.Valid()
    ensures Taken(b, amount, now).Valid()
    ensures Taken(b, amount, now).capacity == b.capacity && Taken(b, amount, now).refillPerSec == b.refillPerSec
  {
    RefilledValid(b, now);
  }

  // Asking for one token at each of the given times.
  function AfterAsks(b: BucketState, times: seq<nat>): BucketState {
    if times == [] then b
    else Taken(AfterAsks(b, times[..|times| - 1]), 1, times[|times| - 1])
  }

  lemma NoAsks(b: BucketState)
    ensures AfterAsks(b, []) == b
  {
  }

  lemma OneMoreAsk(b: BucketState, times: seq<nat>, t: nat)
    ensures AfterAsks(b, times + [t]) == Taken(AfterAsks(b, times), 1, t)
  {
    hide Taken;
    assert (times + [t])[..|times|] == times;
  }

  function GrantedAsks(b: BucketState, times: seq<nat>): nat {
    if times == [] then 0
    else
      var before := times[..|times| - 1];
      GrantedAsks(b, before) + if Grants(AfterAsks(b, before), 1, times[|times| - 1]) then 1 else 0
  }

  // One ask, in terms of the tokens left by the one before it.
  lemma AskStep(b: BucketState, now: nat)
    requires b.Valid() && b.lastRefill <= now
    ensures var after := Taken(b, 1, now);
            && after.Valid() && after.lastRefill == now
            && after.capacity == b.capacity && after.refillPerSec == b.refillPerSec
            && after.tokens + (if Grants(b, 1, now) then 1.0 else 0.0) <= b.tokens + Gain(b.refillPerSec, now - b.lastRefill)
            && after.tokens + (if Grants(b, 1, now) then 1.0 else 0.0) <= b.capacity
  {
    TakenValid(b, 1, now);
    RefilledValid(b, now);
  }

  lemma {:induction false} GrantBudget(b: BucketState, times: seq<nat>)
    requires b.Valid() && Sorted(times) && times != [] && b.lastRefill <= times[0]
    ensures var first, last := times[0], times[|times| - 1];
            var after := AfterAsks(b, times);
            && after.Valid() && after.lastRefill == last
            && after.capacity == b.capacity && after.refillPerSec == b.refillPerSec
            && GrantedAsks(b, times) as real + after.tokens <= b.capacity + Gain(b.refillPerSec, last - first)
  {
    var before, last := times[..|times| - 1], times[|times| - 1];
    AskStep(AfterAsks(b, before), last) by {
      if before != [] {
        GrantBudget(b, before);
      }
    }
    if before != [] {
      var previous := times[|times| - 2];
      assert before[|before| - 1] == previous && before[0] == times[0];
      GrantBudget(b, before);
      GainAdds(b.refillPerSec, previous - times[0], last - previous);
    }
  }

  /** In any stretch of asks, the grants are at most the burst plus rate times duration (`Gain`). */
  lemma RateBound(b: BucketState, times: seq<nat>)
    requires b.Valid() && Sorted(times) && times != [] && b.lastRefill <= times[0]
    ensures GrantedAsks(b, times) as real <= b.capacity + Gain(b.refillPerSec, times[|times| - 1] - times[0])
  {
    GrantBudget(b, times);
  }

  /** Conversely, a bucket that is asked for one token at gaps of at least 1/rate never refuses. */
  lemma {:induction false} SlowAsksGranted(b: BucketState, times: seq<nat>)
    requires b.Valid() && (times != [] ==> b.lastRefill <= times[0] && Grants(b, 1, times[0]))
    requires forall i :: 0 < i < |times| ==>
                           times[i - 1] <= times[i] && Gain(b.refillPerSec, times[i] - times[i - 1]) >= 1.0
    ensures GrantedAsks(b, times) == |times|
    ensures var after := AfterAsks(b, times);
            && after.Valid() && (times != [] ==> after.lastRefill == times[|times| - 1])
            && after.capacity == b.capacity && after.refillPerSec == b.refillPerSec
  {
    if times != [] {
      var before, last := times[..|times| - 1], times[|times| - 1];
      SlowAsksGranted(b, before);
      if before != [] {
        assert before[|before| - 1] == times[|times| - 2];
      }
      AskStep(AfterAsks(b, before), last);
    }
  }

  // ---------- a window of time ----------

  /** What a bucket can owe by `time` if `spent` tokens were paid out in [from, to]. */
  ghost predicate Paid(b: BucketState, spent: nat, time: nat, from: nat, to: nat)
    requires from <= to
  {
    && b.Valid() && b.lastRefill <= time
    && (b.lastRefill < from ==> spent == 0)
    && (from <= b.lastRefill && time <= to ==>
          spent as real + b.tokens <= b.capacity + Gain(b.refillPerSec, b.lastRefill - from))
    && spent as real <= b.capacity + Gain(b.refillPerSec, to - from)
  }

  lemma NothingPaid(b: BucketState, from: nat, to: nat)
    requires b.Valid() && from <= to
    ensures Paid(b, 0, b.lastRefill, from, to)
  {
    GainNonNegative(b.refillPerSec, to - from);
    if from <= b.lastRefill {
      GainNonNegative(b.refillPerSec, b.lastRefill - from);
    }
  }

  lemma PaidAfterAsk(b: BucketState, spent: nat, time: nat, from: nat, to: nat, now: nat, counted: bool)
    requires from <= to && Paid(b, spent, time, from, to) && time <= now
    requires counted ==> Grants(b, 1, now) && from <= now <= to
    ensures Paid(Taken(b, 1, now), spent + if counted then 1 else 0, now, from, to)
  {
    AskStep(b, now);
    GainNonNegative(b.refillPerSec, to - from);
    if from <= now <= to {
      GainNonNegative(b.refillPerSec, now - from);
      GainNonNegative(b.refillPerSec, to - now);
      GainAdds(b.refillPerSec, now - from, to - now);
      if from <= b.lastRefill {
        GainAdds(b.refillPerSec, b.lastRefill - from, now - b.lastRefill);
      }
    }
  }

  /** A token is there once enough has accrued since the last refill. */
  lemma GrantsAfterWait(b: BucketState, last: nat, now: nat)
    requires b.Valid() && b.lastRefill <= last < now && Gain(b.refillPerSec, now - last) >= 1.0
    ensures Grants(b, 1, now)
  {
    GainAdds(b.refillPerSec, last - b.lastRefill, now - last);
    GainNonNegative(b.refillPerSec, last - b.lastRefill);
  }
}
