/** Times of events, and the ones still inside a window. Times are milliseconds. */
module SlidingWindow {
  // `now.duration_since(then)`, zero when `then` is later.
  function Elapsed(now: nat, then_: nat): nat {
    if now < then_ then 0 else now - then_
  }

  ghost predicate Sorted(times: seq<nat>) {
    forall i, j :: 0 <= i < j < |times| ==> times[i] <= times[j]
  }

  ghost predicate UpTo(times: seq<nat>, now: int) {
    forall k :: 0 <= k < |times| ==> times[k] <= now
  }

  /** The events with times in [from, to], in order. */
  function Span(times: seq<nat>, from: int, to: int): (r: seq<nat>)
    ensures |r| <= |times|
    ensures forall k :: 0 <= k < |r| ==> r[k] in times && from <= r[k] <= to
  {
    if times == [] then []
    else if from <= times[0] <= to then [times[0]] + Span(times[1..], from, to)
    else Span(times[1..], from, to)
  }

  /** The events no older than the window: what the trimmed queues stand for. */
  function Recent(times: seq<nat>, now: nat, window: nat): seq<nat> {
    Span(times, now - window, now)
  }

  lemma {:induction false} SpanCounts(times: seq<nat>, from: int, to: int, t: nat)
    ensures multiset(Span(times, from, to))[t] == if from <= t <= to then multiset(times)[t] else 0
  {
    if times != [] {
      assert times == [times[0]] + times[1..];
      SpanCounts(times[1..], from, to, t);
    }
  }

  /** Every event at most the window's length old is there, as often as it happened, and no other. */
  lemma RecentExactly(times: seq<nat>, now: nat, window: nat, t: nat)
    ensures multiset(Recent(times, now, window))[t] == if t <= now <= t + window then multiset(times)[t] else 0
  {
    SpanCounts(times, now - window, now, t);
  }

  // Popping from the front while the front is too old.
  function TrimFront(times: seq<nat>, now: nat, window: nat): seq<nat> {
    if times != [] && Elapsed(now, times[0]) > window then TrimFront(times[1..], now, window) else times
  }

  lemma {:induction false} SpanOfAll(times: seq<nat>, from: int, to: int)
    requires forall k :: 0 <= k < |times| ==> from <= times[k] <= to
    ensures Span(times, from, to) == times
  {
    if times != [] {
      SpanOfAll(times[1..], from, to);
    }
  }

  /** Trimming the front of a sorted queue leaves exactly the recent events. */
  lemma {:induction false} TrimIsRecent(times: seq<nat>, now: nat, window: nat)
    requires Sorted(times) && UpTo(times, now)
    ensures TrimFront(times, now, window) == Recent(times, now, window)
  {
    if times != [] {
      if Elapsed(now, times[0]) > window {
        TrimIsRecent(times[1..], now, window);
      } else {
        SpanOfAll(times, now - window, now);
      }
    }
  }

  lemma {:induction false} SpanSorted(times: seq<nat>, from: int, to: int)
    requires Sorted(times)
    ensures Sorted(Span(times, from, to))
  {
    if times != [] {
      SpanSorted(times[1..], from, to);
      var rest := Span(times[1..], from, to);
      forall k | 0 <= k < |rest|
        ensures times[0] <= rest[k]
      {
        assert rest[k] in times[1..];
        var i :| 0 <= i < |times[1..]| && times[1..][i] == rest[k];
        assert times[0] <= times[i + 1];
      }
      assert Sorted([times[0]] + rest);
    }
  }

  lemma {:induction false} SpanOfSpan(times: seq<nat>, from: int, to: int, later: int, end: int)
    requires from <= later && to <= end && UpTo(times, to)
    ensures Span(Span(times, from, to), later, end) == Span(times, later, end)
  {
    if times != [] {
      SpanOfSpan(times[1..], from, to, later, end);
      if from <= times[0] <= to {
        assert Span(times, from, to)[1..] == Span(times[1..], from, to);
      }
    }
  }

  /** Forgetting is harmless: trimming again later gives what trimming once would have. */
  lemma RecentOfRecent(times: seq<nat>, earlier: nat, now: nat, window: nat)
    requires earlier <= now && UpTo(times, earlier)
    ensures Recent(Recent(times, earlier, window), now, window) == Recent(times, now, window)
  {
    SpanOfSpan(times, earlier - window, earlier, now - window, now);
  }

  lemma {:induction false} SpanAppend(times: seq<nat>, t: nat, from: int, to: int)
    ensures Span(times + [t], from, to) == Span(times, from, to) + if from <= t <= to then [t] else []
  {
    if times == [] {
      assert times + [t] == [t] && [t][1..] == [];
    } else {
      assert (times + [t])[1..] == times[1..] + [t];
      SpanAppend(times[1..], t, from, to);
    }
  }

  lemma SortedPush(times: seq<nat>, t: nat)
    requires Sorted(times) && UpTo(times, t)
    ensures Sorted(times + [t]) && UpTo(times + [t], t)
  {
  }

  lemma RecentThenPush(times: seq<nat>, trimmedAt: nat, t: nat, window: nat)
    requires Sorted(times) && UpTo(times, trimmedAt) && trimmedAt <= t
    ensures Sorted(Recent(times, trimmedAt, window) + [t]) && UpTo(Recent(times, trimmedAt, window) + [t], t)
  {
    hide Sorted;
    SpanSorted(times, trimmedAt - window, trimmedAt);
    SortedPush(Recent(times, trimmedAt, window), t);
  }

  /** Recording an event in a trimmed queue and trimming it again: the queue stands for the whole
      history as before. */
  lemma PushAndTrim(times: seq<nat>, trimmedAt: nat, t: nat, window: nat)
    requires Sorted(times) && UpTo(times, trimmedAt) && trimmedAt <= t
    ensures TrimFront(Recent(times, trimmedAt, window) + [t], t, window) == Recent(times + [t], t, window)
  {
    hide Span, TrimFront, Sorted;
    var queue := Recent(times, trimmedAt, window);
    RecentThenPush(times, trimmedAt, t, window);
    TrimIsRecent(queue + [t], t, window);
    SpanAppend(queue, t, t - window, t);
    RecentOfRecent(times, trimmedAt, t, window);
    SpanAppend(times, t, t - window, t);
  }

  /** Trimming a trimmed queue later, with nothing recorded in between. */
  lemma TrimLater(times: seq<nat>, trimmedAt: nat, now: nat, window: nat)
    requires Sorted(times) && UpTo(times, trimmedAt) && trimmedAt <= now
    ensures TrimFront(Recent(times, trimmedAt, window), now, window) == Recent(times, now, window)
  {
    var queue := Recent(times, trimmedAt, window);
    SpanSorted(times, trimmedAt - window, trimmedAt);
    TrimIsRecent(queue, now, window);
    RecentOfRecent(times, trimmedAt, now, window);
  }

  /** When every event is older than the window nothing is left. */
  lemma {:induction false} WindowPasses(times: seq<nat>, now: nat, window: nat)
    requires forall k :: 0 <= k < |times| ==> times[k] + window < now
    ensures Recent(times, now, window) == []
  {
    if times != [] {
      WindowPasses(times[1..], now, window);
    }
  }

  ghost predicate Apart(times: seq<nat>, gap: nat) {
    forall i, j :: 0 <= i < j < |times| ==> times[i] + gap <= times[j]
  }

  /** Events at least `gap` apart: how many fit into a window. */
  lemma {:induction false} ApartFit(times: seq<nat>, gap: nat, from: int, to: int)
    requires Apart(times, gap)
    ensures var span := Span(times, from, to);
            span != [] ==> span[0] in times && (|span| - 1) * gap <= to - span[0]
  {
    if times != [] {
      ApartFit(times[1..], gap, from, to);
      var rest := Span(times[1..], from, to);
      if from <= times[0] <= to && rest != [] {
        var k :| 0 <= k < |times[1..]| && times[1..][k] == rest[0];
        assert times[0] + gap <= times[k + 1];
        assert |rest| * gap == (|rest| - 1) * gap + gap;
      }
    }
  }

  /** The pop-front loop of both trimmed queues. */
  method Trim(times: seq<nat>, now: nat, window: nat) returns (kept: seq<nat>)
    ensures kept == TrimFront(times, now, window)
    ensures Sorted(times) && UpTo(times, now) ==> kept == Recent(times, now, window)
  {
    kept := times;
    while kept != []
      invariant TrimFront(kept, now, window) == TrimFront(times, now, window)
      decreases |kept|
    {
      var front := kept[0];
      if Elapsed(now, front) > window {
        kept := kept[1..];
      } else {
        break;
      }
    }
    if Sorted(times) && UpTo(times, now) {
      TrimIsRecent(times, now, window);
    }
  }
}
