/** How fast actions can leave, over whole runs. */
module RunPace {
  import opened Strings
  import opened ResponseCompiler
  import opened SlidingWindow
  import opened Governor
  import opened Steps
  import opened Runs
  import opened RunModes
  import opened Bot
  import RateLimiter

  // ---------- the token bucket ----------

  // Tokens per second, but at least 0.1.
  function Rate(runtime: RuntimeConfig): (r: real)
    ensures r >= 0.1 && r >= runtime.ratePerSec && (r == 0.1 || r == runtime.ratePerSec)
  {
    if runtime.ratePerSec < 0.1 then 0.1 else runtime.ratePerSec
  }

  // A full bucket for a burst of at least 1.
  function StartBucket(run: Run): RateLimiter.BucketState {
    var burst := Max(run.runtime.rateBurst, 1) as real;
    RateLimiter.BucketState(burst, Rate(run.runtime), burst, run.start)
  }

  /** The outbound decisions among the first `n` steps that fall into the closed window [from, to]. */
  function OutboundIn(run: Run, n: nat, from: nat, to: nat): seq<nat>
    requires n <= |run.steps|
  {
    Span(run.Times(n, OutboundMessage), from, to)
  }

  lemma {:induction false} BucketPays(run: Run, n: nat, from: nat, to: nat)
    requires run.Valid() && n <= |run.steps| && from <= to
    ensures RateLimiter.Paid(run.At(n).bucket, |OutboundIn(run, n, from, to)|, run.Time(n), from, to)
  {
    if n == 0 {
      RateLimiter.NothingPaid(StartBucket(run), from, to);
    } else {
      BucketPays(run, n - 1, from, to);
      if run.steps[n - 1].Message? {
        BucketPaysForMessage(run, n - 1, from, to);
      } else {
        ChangeOutcome(run, n - 1);
      }
    }
  }

  lemma BucketPaysForMessage(run: Run, n: nat, from: nat, to: nat)
    requires run.Valid() && n < |run.steps| && run.steps[n].Message? && from <= to
    requires RateLimiter.Paid(run.At(n).bucket, |OutboundIn(run, n, from, to)|, run.Time(n), from, to)
    ensures RateLimiter.Paid(run.At(n + 1).bucket, |OutboundIn(run, n + 1, from, to)|, run.Time(n + 1), from, to)
  {
    var step, bucket, spent := run.steps[n], run.At(n).bucket, |OutboundIn(run, n, from, to)|;
    MessageOutcome(run, n);
    SpanAppend(run.Times(n, OutboundMessage), step.now, from, to);
    RateLimiter.PaidAfterAsk(bucket, spent, run.Time(n), from, to, step.now,
                             Outbound(step.decision) && from <= step.now <= to);
  }

  /** In every closed window [from, to] of every run the outbound decisions are at most the burst plus
      rate times duration. */
  lemma OutboundRateBound(run: Run, from: nat, to: nat)
    requires run.Valid() && from <= to
    ensures |OutboundIn(run, |run.steps|, from, to)| as real <=
            Max(run.runtime.rateBurst, 1) as real + (to - from) as real / 1000.0 * Rate(run.runtime)
  {
    BucketPays(run, |run.steps|, from, to);
    SettingsStay(run, |run.steps|);
    RateLimiter.GainIsProduct(Rate(run.runtime), to - from);
  }

  // ---------- the bucket by history ----------

  /** Message `i` asked the bucket for a token: it passed the duplicate guard, something was compiled for
      it and the breaker was not open. */
  ghost predicate AsksBucket(run: Run, i: nat)
    requires i < |run.steps|
  {
    && run.steps[i].Message? && PastGuard(run.steps[i].decision)
    && Compile(CompiledContext(run, run.steps[i].obs, run.steps[i].decision.mode)) != BotAction.Noop
    && !Tripped(run, i, run.steps[i].now)
  }

  ghost function AskTimes(run: Run, n: nat): seq<nat>
    requires n <= |run.steps|
  {
    if n == 0 then []
    else if AsksBucket(run, n - 1) then AskTimes(run, n - 1) + [run.steps[n - 1].now]
    else AskTimes(run, n - 1)
  }

  lemma AskTakes(run: Run, n: nat)
    requires run.Valid() && n < |run.steps| && run.steps[n].Message?
    ensures run.At(n + 1).bucket ==
            if AsksBucket(run, n) then RateLimiter.Taken(run.At(n).bucket, 1, run.steps[n].now) else run.At(n).bucket
  {
    hide Compile, RateLimiter.Taken, Tripped;
    MessageOutcome(run, n);
    SettingsStay(run, n);
    BreakerByHistory(run, n, run.steps[n].now);
  }

  /** In every reachable state the bucket is what the requests made of it leave of a full one. */
  lemma {:induction false} BucketByHistory(run: Run, n: nat)
    requires run.Valid() && n <= |run.steps|
    ensures run.At(n).bucket == RateLimiter.AfterAsks(StartBucket(run), AskTimes(run, n))
  {
    hide AsksBucket, RateLimiter.Taken, RateLimiter.AfterAsks;
    if n == 0 {
      RateLimiter.NoAsks(StartBucket(run));
    } else {
      BucketByHistory(run, n - 1);
      BucketStep(run, n - 1);
      RateLimiter.OneMoreAsk(StartBucket(run), AskTimes(run, n - 1), run.steps[n - 1].now);
    }
  }

  lemma BucketStep(run: Run, n: nat)
    requires run.Valid() && n < |run.steps|
    ensures run.At(n + 1).bucket ==
            if AsksBucket(run, n) then RateLimiter.Taken(run.At(n).bucket, 1, run.steps[n].now) else run.At(n).bucket
  {
    hide AsksBucket, RateLimiter.Taken;
    if run.steps[n].Message? {
      AskTakes(run, n);
    } else {
      ChangeOutcome(run, n);
      ChangesDoNotAsk(run, n);
    }
  }

  lemma ChangesDoNotAsk(run: Run, i: nat)
    requires i < |run.steps| && run.steps[i].Change?
    ensures !AsksBucket(run, i)
  {
  }

  lemma {:induction false} AskTimesOrdered(run: Run, n: nat)
    requires run.Valid() && n <= |run.steps|
    ensures Sorted(AskTimes(run, n)) && UpTo(AskTimes(run, n), run.Time(n))
    ensures forall k :: 0 <= k < |AskTimes(run, n)| ==> run.start <= AskTimes(run, n)[k]
  {
    hide AsksBucket;
    TimeGrows(run, 0, n);
    if n > 0 {
      AskTimesOrdered(run, n - 1);
      TimeGrows(run, n - 1, n);
    }
  }

  /** A message is never dropped for the rate when nothing has asked the bucket before, or when a token
      has accrued since the last message that did. */
  lemma SlowMessageNotLimited(run: Run, n: nat)
    requires run.Valid() && n < |run.steps| && run.steps[n].Message?
    requires var asks := AskTimes(run, n);
             asks == [] || Elapsed(run.steps[n].now, asks[|asks| - 1]) as real / 1000.0 * Rate(run.runtime) >= 1.0
    ensures run.steps[n].decision.reason != Some(RateLimit)
  {
    hide AskTimes, Rate, RateLimiter.Gain;
    var asks, bucket, now := AskTimes(run, n), run.At(n).bucket, run.steps[n].now;
    MessageOutcome(run, n);
    BucketByHistory(run, n);
    AskTimesOrdered(run, n);
    if asks == [] {
      RateLimiter.RefilledValid(bucket, now);
    } else {
      RateLimiter.GrantBudget(StartBucket(run), asks);
      RateLimiter.AccruesInTime(Rate(run.runtime), Elapsed(now, asks[|asks| - 1]));
      RateLimiter.GrantsAfterWait(bucket, asks[|asks| - 1], now);
    }
  }

  // ---------- accounting ----------

  /** The dropped counter is the number of reasons given, until it saturates. */
  lemma {:induction false} DroppedCountsReasons(run: Run, n: nat)
    requires run.Valid() && n <= |run.steps|
    ensures run.At(n).metrics.dropped == Min(run.ReasonsGiven(n), U64_MAX)
  {
    hide RateLimiter.Taken, RateLimiter.Grants;
    if n > 0 {
      DroppedCountsReasons(run, n - 1);
      if run.steps[n - 1].Message? {
        MessageOutcome(run, n - 1);
      } else {
        ChangeOutcome(run, n - 1);
      }
    }
  }

  /** Every message is accounted for: it leads to an action, or gives a reason, or was finalised with
      a proposal that asks for nothing, and to exactly one of these. */
  lemma EveryMessageAccountedFor(run: Run, n: nat)
    requires run.Valid() && n < |run.steps| && run.steps[n].Message?
    ensures var d := run.steps[n].decision;
            && !(Outbound(d) && d.reason.Some?)
            && (!Outbound(d) && d.reason == None <==> PastGuard(d) && Silent(d.proposal))
  {
    hide RateLimiter.Taken, RateLimiter.Grants;
    MessageOutcome(run, n);
  }
}
