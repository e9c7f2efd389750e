/** At most one answer per message, over whole runs. */
module RunDuplicates {
  import opened Strings
  import opened Governor
  import opened Steps
  import opened Runs
  import opened DuplicateGuard
  import RateLimiter

  function Last(run: Run, n: nat): map<nat, nat>
    requires n <= |run.steps|
  {
    LastTimes(run.Sightings(n))
  }

  // `LastTimes` one sighting on.
  lemma LastAfter(run: Run, n: nat)
    requires n < |run.steps|
    ensures Last(run, n + 1) ==
            if IsSighting(run.steps[n]) then Last(run, n)[run.steps[n].ctx.messageId := run.steps[n].now]
            else Last(run, n)
  {
    if IsSighting(run.steps[n]) {
      var before := run.Sightings(n);
      assert run.Sightings(n + 1)[..|before|] == before;
    }
  }

  ghost predicate GuardRefines(run: Run, n: nat)
    requires n <= |run.steps|
  {
    Refines(run.At(n).guard, Last(run, n), run.Time(n)) && NoLaterThan(Last(run, n), run.Time(n))
  }

  lemma GuardAfterSighting(run: Run, n: nat)
    requires run.Valid() && n < |run.steps| && IsSighting(run.steps[n]) && GuardRefines(run, n)
    ensures GuardRefines(run, n + 1)
  {
    hide RateLimiter.Taken, RateLimiter.Grants;
    var step := run.steps[n];
    LastAfter(run, n);
    MessageOutcome(run, n);
    MarkRefines(run.At(n).guard, Last(run, n), run.Time(n), step.ctx.messageId, step.now, run.At(n + 1).guard);
  }

  lemma GuardAfterOther(run: Run, n: nat)
    requires run.Valid() && n < |run.steps| && !IsSighting(run.steps[n])
    ensures run.At(n + 1).guard == run.At(n).guard && run.Time(n) <= run.Time(n + 1)
  {
    hide RateLimiter.Taken, RateLimiter.Grants;
    if run.steps[n].Message? {
      MessageOutcome(run, n);
    } else {
      ChangeOutcome(run, n);
    }
  }

  /** In every reachable state the bounded guard refines the unbounded memory of all sightings. */
  lemma {:induction false} GuardRefinesSightings(run: Run, n: nat)
    requires run.Valid() && n <= |run.steps|
    ensures GuardRefines(run, n)
  {
    if n > 0 {
      GuardRefinesSightings(run, n - 1);
      if IsSighting(run.steps[n - 1]) {
        GuardAfterSighting(run, n - 1);
      } else {
        GuardAfterOther(run, n - 1);
      }
    }
  }

  /** The last time recorded for an id is that of some message with that id. */
  lemma {:induction false} LastIsASighting(run: Run, n: nat, id: nat) returns (k: nat)
    requires n <= |run.steps| && id in Last(run, n)
    ensures k < n && IsSighting(run.steps[k])
    ensures run.steps[k].ctx.messageId == id && run.steps[k].now == Last(run, n)[id]
  {
    LastAfter(run, n - 1);
    if IsSighting(run.steps[n - 1]) && run.steps[n - 1].ctx.messageId == id {
      k := n - 1;
    } else {
      k := LastIsASighting(run, n - 1, id);
    }
  }

  lemma {:induction false} SightingIsRemembered(run: Run, k: nat, n: nat)
    requires run.Valid() && k < n <= |run.steps| && IsSighting(run.steps[k])
    ensures run.steps[k].ctx.messageId in Last(run, n)
    ensures run.steps[k].now <= Last(run, n)[run.steps[k].ctx.messageId]
  {
    LastAfter(run, n - 1);
    if k < n - 1 {
      SightingIsRemembered(run, k, n - 1);
      TimeGrows(run, k + 1, n);
    }
  }

  /** The other ids sighted, before step `n`, no earlier than the last sighting of `id`. */
  ghost function PushedOutBy(run: Run, n: nat, id: nat): set<nat>
    requires n <= |run.steps| && id in Last(run, n)
  {
    SightedSince(Last(run, n), id)
  }

  // How many ids the guard remembers.
  function Capacity(run: Run): nat { if run.runtime.duplicateCap < 64 then 64 else run.runtime.duplicateCap }

  // What the guard said about message `n`, against the unbounded memory.
  lemma GuardSaid(run: Run, n: nat)
    requires run.Valid() && n < |run.steps| && IsSighting(run.steps[n])
    ensures var (step, last) := (run.steps[n], Last(run, n));
            var (id, ttl) := (step.ctx.messageId, run.runtime.duplicateTtl);
            && (step.decision.reason == Some(Duplicate) ==> id in last && step.now <= last[id] + ttl)
            && (PastGuard(step.decision) && id in last && step.now <= last[id] + ttl ==>
                  |PushedOutBy(run, n, id)| >= Capacity(run))
  {
    hide RateLimiter.Taken, RateLimiter.Grants;
    var step := run.steps[n];
    MessageOutcome(run, n);
    SettingsStay(run, n);
    GuardRefinesSightings(run, n);
    AnswerByHistory(run.At(n).guard, Last(run, n), run.Time(n), step.ctx.messageId, step.now);
  }

  /** A message is called a duplicate only if one with its id was sighted within the ttl. */
  lemma DuplicateWasSighted(run: Run, n: nat) returns (k: nat)
    requires run.Valid() && n < |run.steps| && run.steps[n].Message?
    requires run.steps[n].decision.reason == Some(Duplicate)
    ensures k < n && IsSighting(run.steps[k]) && run.steps[k].ctx.messageId == run.steps[n].ctx.messageId
    ensures run.steps[n].now <= run.steps[k].now + run.runtime.duplicateTtl
  {
    hide RateLimiter.Taken, RateLimiter.Grants;
    MessageOutcome(run, n);
    GuardSaid(run, n);
    k := LastIsASighting(run, n, run.steps[n].ctx.messageId);
  }

  /** Conversely a message seen within the ttl is answered again only if at least the guard's capacity
      of other ids was sighted in between. */
  lemma SeenIsDuplicateUnlessPushedOut(run: Run, i: nat, j: nat)
    requires run.Valid() && i < j < |run.steps| && IsSighting(run.steps[i])
    requires run.steps[j].Message? && PastGuard(run.steps[j].decision)
    requires run.steps[i].ctx.messageId == run.steps[j].ctx.messageId
    ensures var id := run.steps[i].ctx.messageId;
            || run.steps[i].now + run.runtime.duplicateTtl < run.steps[j].now
            || (id in Last(run, j) && run.steps[i].now <= Last(run, j)[id]
                && |PushedOutBy(run, j, id)| >= Capacity(run))
  {
    SightingIsRemembered(run, i, j);
    GuardSaid(run, j);
  }

  lemma OutboundPastGuard(run: Run, n: nat)
    requires run.Valid() && n < |run.steps| && Is(run.steps[n], OutboundMessage)
    ensures PastGuard(run.steps[n].decision)
  {
    hide RateLimiter.Taken, RateLimiter.Grants;
    MessageOutcome(run, n);
  }

  /** At most once: two outbound decisions for one message id are more than the ttl apart, or at least
      the guard's capacity of other ids was sighted in between. */
  lemma AtMostOnce(run: Run, i: nat, j: nat)
    requires run.Valid() && i < j < |run.steps|
    requires Is(run.steps[i], OutboundMessage) && Is(run.steps[j], OutboundMessage)
    requires run.steps[i].ctx.messageId == run.steps[j].ctx.messageId
    ensures var id := run.steps[i].ctx.messageId;
            || run.steps[i].now + run.runtime.duplicateTtl < run.steps[j].now
            || (id in Last(run, j) && run.steps[i].now <= Last(run, j)[id]
                && |PushedOutBy(run, j, id)| >= Capacity(run))
  {
    OutboundPastGuard(run, i);
    OutboundPastGuard(run, j);
    SeenIsDuplicateUnlessPushedOut(run, i, j);
  }
}
