/** src/security/circuit_breaker.rs: a breaker tripped by refused requests. */
module CircuitBreaker {
  import opened Strings
  import opened SlidingWindow

  datatype BreakerState = BreakerState(
    window: nat,
    threshold: nat,
    openFor: nat,
    failures: seq<nat>,
    openUntil: Option<nat>)

  predicate IsRefusal(status: nat) { status == 401 || status == 403 || status == 429 }

  function NewBreaker(window: nat, threshold: nat, openFor: nat): BreakerState {
    BreakerState(window, if threshold < 1 then 1 else threshold, openFor, [], None)
  }

  predicate IsOpen(b: BreakerState, now: nat) {
    b.openUntil.Some? && now < b.openUntil.value
  }

  function Recorded(b: BreakerState, status: nat, now: nat): BreakerState {
    if !IsRefusal(status) then b
    else
      var kept := TrimFront(b.failures + [now], now, b.window);
      b.(failures := kept,
         openUntil := if |kept| >= b.threshold then Some(now + b.openFor) else b.openUntil)
  }

  class HttpCircuitBreaker {
    const window: nat
    const threshold: nat
    const openFor: nat
    var failures: seq<nat>
    var openUntil: Option<nat>

    ghost function State(): BreakerState
      reads this
    {
      BreakerState(window, threshold, openFor, failures, openUntil)
    }

    constructor (window: nat, threshold: nat, openFor: nat)
      ensures State() == NewBreaker(window, threshold, openFor)
    {
      this.window := window;
      this.threshold := if threshold < 1 then 1 else threshold;
      this.openFor := openFor;
      failures := [];
      openUntil := None;
    }

    method AllowsOutbound(now: nat) returns (allowed: bool)
      ensures allowed <==> !IsOpen(State(), now)
    {
      allowed := match openUntil
                 case None => true
                 case Some(until) => now >= until;
    }

    method Open(now: nat) returns (open: bool)
      ensures open <==> IsOpen(State(), now)
    {
      open := match openUntil
              case None => false
              case Some(until) => now < until;
    }

    method RecordStatus(status: nat, now: nat)
      modifies this
      ensures State() == Recorded(old(State()), status, now)
    {
      if !(status == 401 || status == 403 || status == 429) {
        return;
      }
      failures := failures + [now];
      failures := Trim(failures, now, window);
      if |failures| >= threshold {
        openUntil := Some(now + openFor);
      }
    }
  }

  // ---------- the breaker as a function of its history ----------

  // `refusals` lists the times of all 401, 403 and 429 responses, oldest first.
  function AfterRefusals(b: BreakerState, refusals: seq<nat>): BreakerState {
    if refusals == [] then b
    else Recorded(AfterRefusals(b, refusals[..|refusals| - 1]), 429, refusals[|refusals| - 1])
  }

  lemma OneMoreStatus(b: BreakerState, refusals: seq<nat>, status: nat, t: nat)
    ensures Recorded(AfterRefusals(b, refusals), status, t)
         == AfterRefusals(b, if IsRefusal(status) then refusals + [t] else refusals)
  {
    hide TrimFront;
    assert (refusals + [t])[..|refusals|] == refusals;
  }

  /** At least `threshold` refusals fall in the window that ends with one at `r`. */
  ghost predicate Trips(b: BreakerState, refusals: seq<nat>, r: nat) {
    r in refusals && |Recent(refusals, r, b.window)| >= b.threshold
  }

  ghost predicate OpenByHistory(b: BreakerState, refusals: seq<nat>, now: nat) {
    exists r: nat :: Trips(b, refusals, r) && r <= now < r + b.openFor
  }

  ghost predicate Fresh(b: BreakerState) {
    b.failures == [] && b.openUntil == None && b.threshold >= 1
  }

  // What the breaker keeps, in terms of its history.
  ghost predicate Remembers(start: BreakerState, refusals: seq<nat>, b: BreakerState) {
    && b.window == start.window && b.threshold == start.threshold && b.openFor == start.openFor
    && b.failures == (if refusals == [] then [] else Recent(refusals, refusals[|refusals| - 1], start.window))
    && (forall r: nat :: Trips(start, refusals, r) ==>
                           b.openUntil.Some? && r + start.openFor <= b.openUntil.value)
    && (b.openUntil.Some? ==>
          exists r: nat :: Trips(start, refusals, r) && b.openUntil.value == r + start.openFor)
  }

  lemma QueueAfterRefusal(refusals: seq<nat>, t: nat, window: nat)
    requires Sorted(refusals) && UpTo(refusals, t)
    ensures var queue := if refusals == [] then [] else Recent(refusals, refusals[|refusals| - 1], window);
            TrimFront(queue + [t], t, window) == Recent(refusals + [t], t, window)
  {
    PushAndTrim(refusals, if refusals == [] then t else refusals[|refusals| - 1], t, window);
  }

  lemma OneMoreRefusal(start: BreakerState, refusals: seq<nat>, t: nat, b: BreakerState)
    requires Sorted(refusals) && UpTo(refusals, t) && Fresh(start) && Remembers(start, refusals, b)
    ensures Remembers(start, refusals + [t], Recorded(b, 429, t))
  {
    hide Span, TrimFront;
    var all, next := refusals + [t], Recorded(b, 429, t);
    QueueAfterRefusal(refusals, t, start.window);
    assert next.failures == Recent(all, t, start.window);
    assert Trips(start, all, t) <==> |next.failures| >= start.threshold;
    forall r: nat
      ensures Trips(start, refusals, r) ==> Trips(start, all, r)
      ensures r != t ==> (Trips(start, all, r) ==> Trips(start, refusals, r))
      ensures Trips(start, all, r) ==> r <= t
    {
      SpanAppend(refusals, t, r - start.window, r);
    }
    if next.openUntil.Some? && |next.failures| < start.threshold {
      var r: nat :| Trips(start, refusals, r) && b.openUntil.value == r + start.openFor;
      assert Trips(start, all, r);
    }
  }

  lemma {:induction false} BreakerRemembers(start: BreakerState, refusals: seq<nat>)
    requires Sorted(refusals) && Fresh(start)
    ensures Remembers(start, refusals, AfterRefusals(start, refusals))
  {
    hide Span, TrimFront;
    if refusals != [] {
      hide Remembers, Recorded;
      var before, t := refusals[..|refusals| - 1], refusals[|refusals| - 1];
      BreakerRemembers(start, before);
      assert refusals == before + [t];
      OneMoreRefusal(start, before, t, AfterRefusals(start, before));
    }
  }

  /** The breaker is open exactly while some window full of refusals is less than `openFor` old. */
  lemma OpenExactlyByHistory(start: BreakerState, refusals: seq<nat>, now: nat)
    requires Sorted(refusals) && Fresh(start)
    requires UpTo(refusals, now)
    ensures IsOpen(AfterRefusals(start, refusals), now) <==> OpenByHistory(start, refusals, now)
  {
    BreakerRemembers(start, refusals);
  }
}
