/** Left-to-right counting of non-overlapping hits of a fixed width, and what it computes: the
    largest number of pairwise disjoint hits. */
module Greedy {
  // `hit(s[i..])` says that an occurrence starts at position i.
  function Count<T>(s: seq<T>, hit: seq<T> -> bool, width: nat): nat
    requires width > 0
  {
    if |s| < width then 0
    else if hit(s) then 1 + Count(s[width..], hit, width)
    else Count(s[1..], hit, width)
  }

  ghost predicate Disjoint<T>(s: seq<T>, hit: seq<T> -> bool, width: nat, starts: seq<nat>) {
    && (forall i :: 0 <= i < |starts| ==> starts[i] + width <= |s| && hit(s[starts[i]..]))
    && (forall i, j :: 0 <= i < j < |starts| ==> starts[i] + width <= starts[j])
  }

  function Shift(starts: seq<nat>, offset: int): (r: seq<nat>)
    requires forall i :: 0 <= i < |starts| ==> 0 <= starts[i] + offset
    ensures |r| == |starts|
    ensures forall i :: 0 <= i < |starts| ==> r[i] == starts[i] + offset
  {
    seq(|starts|, i requires 0 <= i < |starts| => starts[i] + offset)
  }

  lemma {:induction false} CountAchieved<T>(s: seq<T>, hit: seq<T> -> bool, width: nat) returns (starts: seq<nat>)
    requires width > 0
    ensures Disjoint(s, hit, width, starts) && |starts| == Count(s, hit, width)
  {
    if |s| < width {
      starts := [];
    } else {
      var step := if hit(s) then width else 1;
      var later := CountAchieved(s[step..], hit, width);
      var moved := Shift(later, step);
      assert forall i :: 0 <= i < |moved| ==> s[moved[i]..] == s[step..][later[i]..];
      starts := if hit(s) then [0] + moved else moved;
      assert s[0..] == s;
    }
  }

  // Hits behind the first `step` elements are hits in the rest.
  lemma DisjointInRest<T>(s: seq<T>, hit: seq<T> -> bool, width: nat, starts: seq<nat>, step: nat)
    requires Disjoint(s, hit, width, starts) && step <= |s|
    requires forall i :: 0 <= i < |starts| ==> step <= starts[i]
    ensures Disjoint(s[step..], hit, width, Shift(starts, -(step as int)))
  {
    var moved := Shift(starts, -(step as int));
    forall i | 0 <= i < |moved|
      ensures moved[i] + width <= |s[step..]| && hit(s[step..][moved[i]..])
    {
      assert s[step..][moved[i]..] == s[starts[i]..];
    }
  }

  lemma {:induction false} CountIsUpperBound<T>(s: seq<T>, hit: seq<T> -> bool, width: nat, starts: seq<nat>)
    requires width > 0 && Disjoint(s, hit, width, starts)
    ensures |starts| <= Count(s, hit, width)
    decreases |s|
  {
    if |s| < width {
    } else if starts == [] {
    } else if hit(s) {
      var later := starts[1..];
      assert forall i :: 0 <= i < |later| ==> later[i] == starts[i + 1] && starts[0] + width <= starts[i + 1];
      DisjointInRest(s, hit, width, later, width);
      CountIsUpperBound(s[width..], hit, width, Shift(later, -(width as int)));
    } else {
      assert starts[0] != 0 by { assert s[0..] == s; }
      DisjointInRest(s, hit, width, starts, 1);
      CountIsUpperBound(s[1..], hit, width, Shift(starts, -1));
    }
  }

  /** Greedy counting is optimal: some disjoint choice of hits has this size and none is larger. */
  lemma CountIsMaximum<T>(s: seq<T>, hit: seq<T> -> bool, width: nat)
    requires width > 0
    ensures exists starts :: Disjoint(s, hit, width, starts) && |starts| == Count(s, hit, width)
    ensures forall starts :: Disjoint(s, hit, width, starts) ==> |starts| <= Count(s, hit, width)
  {
    var best := CountAchieved(s, hit, width);
    forall starts | Disjoint(s, hit, width, starts)
      ensures |starts| <= Count(s, hit, width)
    {
      CountIsUpperBound(s, hit, width, starts);
    }
  }
}
