/** src/security/duplicate_guard.rs: a bounded memory of recently seen message ids. */
module DuplicateGuard {
  import opened SlidingWindow

  datatype GuardState = GuardState(ttl: nat, cap: nat, seen: map<nat, nat>)

  function NewGuard(ttl: nat, cap: nat): GuardState {
    GuardState(ttl, if cap < 64 then 64 else cap, map[])
  }

  function Evicted(g: GuardState, now: nat): map<nat, nat> {
    map id | id in g.seen && Elapsed(now, g.seen[id]) <= g.ttl :: g.seen[id]
  }

  predicate IsDuplicate(g: GuardState, id: nat, now: nat) {
    id in Evicted(g, now)
  }

  /** `kept` is what may be left of `seen` when it is cut down to the `cap` newest entries; entries of
      the same age may be kept or dropped in any combination. */
  ghost predicate Compacted(seen: map<nat, nat>, cap: nat, kept: map<nat, nat>) {
    && kept.Keys <= seen.Keys && |kept| == cap
    && (forall id :: id in kept ==> kept[id] == seen[id])
    && (forall id, other :: id in seen && id !in kept && other in kept ==> seen[id] <= seen[other])
  }

  /** The guard after marking `id`; compaction chooses freely among ties. */
  ghost predicate Marked(g: GuardState, id: nat, now: nat, after: GuardState) {
    var seen := Evicted(g, now)[id := now];
    && after.ttl == g.ttl && after.cap == g.cap
    && (if |seen| > g.cap then Compacted(seen, g.cap, after.seen) else after.seen == seen)
  }

  class Guard {
    const ttl: nat
    const cap: nat
    var seen: map<nat, nat>

    ghost function State(): GuardState
      reads this
    {
      GuardState(ttl, cap, seen)
    }

    constructor (ttl: nat, cap: nat)
      ensures State() == NewGuard(ttl, cap)
    {
      this.ttl := ttl;
      this.cap := if cap < 64 then 64 else cap;
      seen := map[];
    }

    method IsDuplicateAndMark(id: nat, now: nat) returns (duplicate: bool)
      modifies this
      ensures duplicate <==> IsDuplicate(old(State()), id, now)
      ensures Marked(old(State()), id, now, State())
    {
      EvictOld(now);
      duplicate := id in seen;
      seen := seen[id := now];
      if |seen| > cap {
        Compact();
      }
    }

    method EvictOld(now: nat)
      modifies this
      ensures seen == Evicted(old(State()), now)
    {
      seen := map id | id in seen && Elapsed(now, seen[id]) <= ttl :: seen[id];
    }

    method Compact()
      requires |seen| > cap
      modifies this
      ensures Compacted(old(seen), cap, seen)
    {
      var items := OldestFirst(seen);
      seen := Reinsert(seen, items[|items| - cap..]);
    }
  }

  // `clear`, then insert the entries that are kept.
  method Reinsert(seen: map<nat, nat>, keep: seq<nat>) returns (kept: map<nat, nat>)
    requires Distinct(keep) && forall id :: id in keep ==> id in seen
    ensures forall id :: id in kept <==> id in keep
    ensures forall id :: id in kept ==> kept[id] == seen[id]
    ensures |kept| == |keep|
  {
    kept := map[];
    for next := 0 to |keep|
      invariant forall k :: 0 <= k < next ==> keep[k] in kept
      invariant forall k :: next <= k < |keep| ==> keep[k] !in kept
      invariant forall id :: id in kept ==> id in keep && kept[id] == seen[id]
      invariant |kept| == next
    {
      kept := kept[keep[next] := seen[keep[next]]];
    }
  }

  ghost predicate Distinct(items: seq<nat>) {
    forall i, j :: 0 <= i < j < |items| ==> items[i] != items[j]
  }

  // The entries in an arbitrary order, stably sorted by time: any listing sorted by time.
  method OldestFirst(seen: map<nat, nat>) returns (items: seq<nat>)
    ensures |items| == |seen| && Distinct(items)
    ensures forall id :: id in items <==> id in seen
    ensures forall i, j :: 0 <= i < j < |items| ==> seen[items[i]] <= seen[items[j]]
  {
    items := [];
    var left := seen.Keys;
    while left != {}
      invariant left <= seen.Keys && |items| + |left| == |seen| && Distinct(items)
      invariant forall id :: id in items <==> id in seen && id !in left
      invariant forall i, j :: 0 <= i < j < |items| ==> seen[items[i]] <= seen[items[j]]
      invariant forall i, id :: 0 <= i < |items| && id in left ==> seen[items[i]] <= seen[id]
      decreases left
    {
      OldestExists(left, seen);
      var id :| id in left && forall other :: other in left ==> seen[id] <= seen[other];
      items := items + [id];
      left := left - {id};
    }
  }

  lemma {:induction false} OldestExists(ids: set<nat>, seen: map<nat, nat>)
    requires ids != {} && ids <= seen.Keys
    ensures exists id :: id in ids && forall other :: other in ids ==> seen[id] <= seen[other]
    decreases |ids|
  {
    var some :| some in ids;
    var rest := ids - {some};
    if rest == {} {
      assert ids == {some};
    } else {
      OldestExists(rest, seen);
      var least :| least in rest && forall other :: other in rest ==> seen[least] <= seen[other];
      var id := if seen[some] <= seen[least] then some else least;
      assert forall other :: other in ids ==> other == some || other in rest;
      assert id in ids && forall other :: other in ids ==> seen[id] <= seen[other];
    }
  }

  // ---------- the guard against the full history of sightings ----------

  datatype Sighting = Sighting(id: nat, time: nat)

  /** When each id was last sighted: an unbounded memory. */
  function LastTimes(history: seq<Sighting>): map<nat, nat> {
    if history == [] then map[]
    else
      var latest := history[|history| - 1];
      LastTimes(history[..|history| - 1])[latest.id := latest.time]
  }

  /** The other ids sighted no earlier than the last sighting of `id`. */
  ghost function SightedSince(last: map<nat, nat>, id: nat): set<nat>
    requires id in last
  {
    set other | other in last && other != id && last[id] <= last[other]
  }

  ghost predicate NoLaterThan(last: map<nat, nat>, now: nat) {
    forall id :: id in last ==> last[id] <= now
  }

  /** What the bounded guard keeps of the unbounded memory: at most `cap` ids, each with its last
      sighting, and everything within the ttl that `cap` others have not pushed out. */
  ghost predicate Refines(g: GuardState, last: map<nat, nat>, now: nat) {
    && |g.seen| <= g.cap
    && (forall id :: id in g.seen ==> id in last && g.seen[id] == last[id])
    && (forall id :: id in last && id !in g.seen && now <= last[id] + g.ttl ==> |SightedSince(last, id)| >= g.cap)
  }

  lemma {:induction false} SubsetSize<T>(small: set<T>, large: set<T>)
    requires small <= large
    ensures |small| <= |large|
    decreases small
  {
    if small != {} {
      var x :| x in small;
      SubsetSize(small - {x}, large - {x});
    }
  }

  lemma MarkRefines(g: GuardState, last: map<nat, nat>, then_: nat, id: nat, now: nat, after: GuardState)
    requires Refines(g, last, then_) && NoLaterThan(last, then_) && then_ <= now
    requires Marked(g, id, now, after)
    ensures Refines(after, last[id := now], now) && NoLaterThan(last[id := now], now)
  {
    var seen, last' := Evicted(g, now)[id := now], last[id := now];
    assert forall x :: x in seen ==> x in last' && seen[x] == last'[x];
    forall x | x in last' && x !in after.seen && now <= last'[x] + g.ttl
      ensures |SightedSince(last', x)| >= g.cap
    {
      if x in seen {
        SubsetSize(after.seen.Keys, SightedSince(last', x));
        assert |after.seen.Keys| == |after.seen|;
      } else {
        assert x !in g.seen;
        SubsetSize(SightedSince(last, x), SightedSince(last', x));
      }
    }
  }

  /** What the guard's answer says about the history. "Duplicate" means sighted within the ttl; a
      sighting within the ttl goes unreported only after `cap` other ids were sighted since. */
  lemma AnswerByHistory(g: GuardState, last: map<nat, nat>, then_: nat, id: nat, now: nat)
    requires Refines(g, last, then_) && NoLaterThan(last, then_) && then_ <= now
    ensures IsDuplicate(g, id, now) ==> id in last && now <= last[id] + g.ttl
    ensures id in last && now <= last[id] + g.ttl && !IsDuplicate(g, id, now) ==> |SightedSince(last, id)| >= g.cap
  {
  }
}
