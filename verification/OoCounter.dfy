/** src/domain/oo_counter.rs: the character-level count of "oo" sequences. */
module OoCounter {
  import Greedy

  const HIRAGANA_O := '\U{304A}'
  const KATAKANA_O := '\U{30AA}'

  predicate IsAsciiO(c: char) { c == 'o' || c == 'O' }

  predicate IsPair(current: char, next: char) {
    || (current == HIRAGANA_O && next == HIRAGANA_O)
    || (current == KATAKANA_O && next == KATAKANA_O)
    || (IsAsciiO(current) && IsAsciiO(next))
  }

  predicate StartsWithPair(s: string) {
    |s| >= 2 && IsPair(s[0], s[1])
  }

  /** The largest number of disjoint pairs (`Greedy.CountIsMaximum`). */
  function OoCount(text: string): nat {
    Greedy.Count(text, StartsWithPair, 2)
  }

  method CountOoSequences(text: string) returns (count: nat)
    ensures count == OoCount(text)
    ensures exists starts :: Greedy.Disjoint(text, StartsWithPair, 2, starts) && |starts| == count
    ensures forall starts :: Greedy.Disjoint(text, StartsWithPair, 2, starts) ==> |starts| <= count
  {
    count := 0;
    var pos := 0;
    while pos < |text|
      invariant 0 <= pos <= |text|
      invariant count + OoCount(text[pos..]) == OoCount(text)
    {
      var current := text[pos];
      assert text[pos..][1..] == text[pos + 1..];
      pos := pos + 1;
      if pos == |text| {
        break;
      }
      var next := text[pos];
      if IsPair(current, next) {
        assert text[pos - 1..][2..] == text[pos + 1..];
        count := count + 1;
        pos := pos + 1;
      }
    }
    Greedy.CountIsMaximum(text, StartsWithPair, 2);
  }

  /** At most one hit for every two characters, with equality on a run of one letter in any case. */
  lemma {:induction false} OoCountBounds(text: string)
    ensures OoCount(text) <= |text| / 2
    ensures (forall c :: c in text ==> IsAsciiO(c)) ==> OoCount(text) == |text| / 2
    decreases |text|
  {
    if |text| >= 2 {
      OoCountBounds(text[1..]);
      OoCountBounds(text[2..]);
    }
  }
}
