/** src/domain/detector.rs: literal pattern counting and the detection report. Tokenisation is not
    part of the model: what it finds is an input. */
module Detector {
  import opened Strings
  import opened Utf8
  import Greedy
  import OoCounter

  const USIZE_MAX := 0xFFFF_FFFF_FFFF_FFFF

  /** "The pattern starts here", as a test on what is left of the text. */
  function Matches<T(==)>(pattern: seq<T>): seq<T> -> bool {
    rest => pattern <= rest
  }

  /** ASCII patterns are searched without regard to ASCII case, others literally. */
  function Fold(text: string, pattern: string): string {
    if IsAscii(pattern) then AsciiLower(text) else text
  }

  // The same character, or the same ASCII letter in the other case.
  predicate SameLetter(c: char, d: char) {
    || c == d
    || ('A' <= c <= 'Z' && d as int == c as int + 32)
    || ('A' <= d <= 'Z' && c as int == d as int + 32)
  }

  /** The pattern occurs at this position: up to ASCII case if it is an ASCII pattern, else literally. */
  predicate OccursAt(content: string, pattern: string, at: nat) {
    && at + |pattern| <= |content|
    && forall i :: 0 <= i < |pattern| ==>
         if IsAscii(pattern) then SameLetter(content[at + i], pattern[i]) else content[at + i] == pattern[i]
  }

  // Pairwise disjoint occurrences, from left to right.
  ghost predicate Occurrences(content: string, pattern: string, starts: seq<nat>) {
    && (forall k :: 0 <= k < |starts| ==> OccursAt(content, pattern, starts[k]))
    && (forall j, k :: 0 <= j < k < |starts| ==> starts[j] + |pattern| <= starts[k])
  }

  lemma FoldedAlike(c: char, d: char)
    ensures AsciiLowerChar(c) == AsciiLowerChar(d) <==> SameLetter(c, d)
  {
  }

  // In the folded text these are the hits of the search.
  lemma OccurrenceIsHit(content: string, pattern: string, at: nat)
    ensures OccursAt(content, pattern, at) <==>
            at + |pattern| <= |content| && Fold(pattern, pattern) <= Fold(content, pattern)[at..]
  {
    var (text, target) := (Fold(content, pattern), Fold(pattern, pattern));
    FoldKeepsLength(content, pattern);
    FoldKeepsLength(pattern, pattern);
    if at + |pattern| <= |content| {
      forall i | 0 <= i < |pattern|
        ensures text[at..][i] == target[i] <==>
                if IsAscii(pattern) then SameLetter(content[at + i], pattern[i]) else content[at + i] == pattern[i]
      {
        FoldedAlike(content[at + i], pattern[i]);
      }
      if OccursAt(content, pattern, at) {
        assert text[at..][..|pattern|] == target;
      }
    }
  }

  lemma OccurrencesAreHits(content: string, pattern: string, starts: seq<nat>)
    ensures Occurrences(content, pattern, starts) <==>
            Greedy.Disjoint(Fold(content, pattern), Matches(Fold(pattern, pattern)), |pattern|, starts)
  {
    hide OccursAt, Fold;
    FoldKeepsLength(content, pattern);
    forall k | 0 <= k < |starts|
      ensures OccursAt(content, pattern, starts[k]) <==>
              && starts[k] + |pattern| <= |Fold(content, pattern)|
              && Matches(Fold(pattern, pattern))(Fold(content, pattern)[starts[k]..])
    {
      OccurrenceIsHit(content, pattern, starts[k]);
    }
  }

  function PatternCount(content: string, pattern: string): nat {
    if pattern == [] then 0
    else Greedy.Count(Fold(content, pattern), Matches(Fold(pattern, pattern)), |pattern|)
  }

  lemma FoldKeepsLength(text: string, pattern: string)
    ensures |Fold(text, pattern)| == |text|
  {
  }

  // ---------- byte-level search ----------

  lemma {:induction false} CountSkips<T>(s: seq<T>, hit: seq<T> -> bool, width: nat, n: nat)
    requires width > 0 && n <= |s|
    requires forall k :: 0 <= k < n ==> !(|s[k..]| >= width && hit(s[k..]))
    ensures Greedy.Count(s, hit, width) == Greedy.Count(s[n..], hit, width)
    decreases n
  {
    assert s[0..] == s;
    if n > 0 {
      assert !(|s[0..]| >= width && hit(s[0..]));
      forall k | 0 <= k < n - 1
        ensures !(|s[1..][k..]| >= width && hit(s[1..][k..]))
      {
        assert s[1..][k..] == s[k + 1..];
      }
      CountSkips(s[1..], hit, width, n - 1);
      assert s[1..][n - 1..] == s[n..];
      if |s| < width {
        assert |s[1..]| < width;
      }
    }
  }

  lemma EncodeSuffix(s: string, k: nat)
    requires k <= |s|
    ensures |Encode(s[..k])| <= |Encode(s)|
    ensures Encode(s)[|Encode(s[..k])|..] == Encode(s[k..])
  {
    assert s[..k] + s[k..] == s;
    EncodeConcat(s[..k], s[k..]);
  }

  /** A byte that is not a continuation byte stands at the start of a character. */
  lemma LeadByteAtBoundary(s: string, pos: nat) returns (k: nat)
    requires pos < |Encode(s)| && !IsContinuation(Encode(s)[pos])
    ensures k < |s| && pos == |Encode(s[..k])|
  {
    var first := EncodeChar(s[0]);
    if pos < |first| {
      assert Encode(s)[pos] == first[pos];
      k := 0;
    } else {
      assert Encode(s)[pos] == Encode(s[1..])[pos - |first|];
      var rest := LeadByteAtBoundary(s[1..], pos - |first|);
      k := rest + 1;
      assert s[..k] == [s[0]] + s[1..][..rest];
      assert s[..k][1..] == s[1..][..rest];
    }
  }

  /** A byte-level occurrence of a pattern is a character-level one. */
  lemma ByteMatchIsCharMatch(s: string, p: string, pos: nat) returns (k: nat)
    requires p != [] && pos <= |Encode(s)| && Encode(p) <= Encode(s)[pos..]
    ensures k + |p| <= |s| && p <= s[k..]
    ensures pos == |Encode(s[..k])| && pos + |Encode(p)| == |Encode(s[..k + |p|])|
  {
    assert Encode(p)[0] == EncodeChar(p[0])[0] == Encode(s)[pos..][0] == Encode(s)[pos];
    k := LeadByteAtBoundary(s, pos);
    EncodeSuffix(s, k);
    PrefixAtBoundary(p, s[k..]);
    assert s[..k + |p|] == s[..k] + p;
    EncodeConcat(s[..k], p);
  }

  /** Counting in the UTF-8 bytes is counting in the characters. */
  lemma {:induction false} ByteCountIsCharCount(s: string, p: string)
    requires p != []
    ensures Greedy.Count(Encode(s), Matches(Encode(p)), |Encode(p)|) == Greedy.Count(s, Matches(p), |p|)
    decreases |s|
  {
    var bytes, needle := Encode(s), Encode(p);
    PrefixAtBoundary(p, s);
    if p <= s {
      assert s[..|p|] == p;
      EncodeSuffix(s, |p|);
      ByteCountIsCharCount(s[|p|..], p);
    } else if s != [] {
      var first := EncodeChar(s[0]);
      forall k | 0 <= k < |first|
        ensures !(|bytes[k..]| >= |needle| && Matches(needle)(bytes[k..]))
      {
        assert bytes[0..] == bytes;
        if k > 0 && needle <= bytes[k..] {
          assert needle[0] == bytes[k..][0] == first[k];
        }
      }
      CountSkips(bytes, Matches(needle), |needle|, |first|);
      assert bytes[|first|..] == Encode(s[1..]);
      ByteCountIsCharCount(s[1..], p);
    }
  }

  lemma {:induction false} NoHitLeft<T>(rest: seq<T>, needle: seq<T>)
    requires needle != [] && Find(rest, needle) == None
    ensures Greedy.Count(rest, Matches(needle), |needle|) == 0
  {
    if rest != [] {
      NoHitLeft(rest[1..], needle);
    }
  }

  lemma {:induction false} HitFound<T>(rest: seq<T>, needle: seq<T>, found: nat)
    requires needle != [] && Find(rest, needle) == Some(found)
    ensures needle <= rest[found..]
    ensures Greedy.Count(rest, Matches(needle), |needle|)
         == 1 + Greedy.Count(rest[found + |needle|..], Matches(needle), |needle|)
  {
    hide Find, Greedy.Count;
    StepToHit(rest, needle, found);
    if found > 0 {
      HitFound(rest[1..], needle, found - 1);
      DropDrop(rest, 1, found - 1);
      DropDrop(rest, 1, found - 1 + |needle|);
    }
  }

  // The search and the count take the same step.
  lemma StepToHit<T>(rest: seq<T>, needle: seq<T>, found: nat)
    requires needle != [] && Find(rest, needle) == Some(found)
    ensures found == 0 ==>
              && needle <= rest && needle <= rest[0..]
              && Greedy.Count(rest, Matches(needle), |needle|)
              == 1 + Greedy.Count(rest[|needle|..], Matches(needle), |needle|)
    ensures found > 0 ==>
              && Find(rest[1..], needle) == Some(found - 1)
              && Greedy.Count(rest, Matches(needle), |needle|) == Greedy.Count(rest[1..], Matches(needle), |needle|)
  {
    assert rest[0..] == rest;
  }

  lemma DropDrop<T>(s: seq<T>, m: nat, n: nat)
    requires m + n <= |s|
    ensures s[m..][n..] == s[m + n..]
  {
  }

  // `haystack[cursor..].find(needle)`, and what it tells the count.
  method FindFrom<T(==)>(haystack: seq<T>, needle: seq<T>, cursor: nat) returns (start: Option<nat>)
    requires needle != [] && cursor <= |haystack|
    ensures start == None ==> Greedy.Count(haystack[cursor..], Matches(needle), |needle|) == 0
    ensures start.Some? ==>
              && cursor <= start.value <= |haystack| - |needle|
              && needle <= haystack[start.value..]
              && Greedy.Count(haystack[cursor..], Matches(needle), |needle|)
              == 1 + Greedy.Count(haystack[start.value + |needle|..], Matches(needle), |needle|)
  {
    hide Find, Greedy.Count;
    var rest := haystack[cursor..];
    match Find(rest, needle)
    case None =>
      NoHitLeft(rest, needle);
      start := None;
    case Some(found) =>
      HitFound(rest, needle, found);
      DropDrop(haystack, cursor, found);
      DropDrop(haystack, cursor, found + |needle|);
      start := Some(cursor + found);
  }

  // The next hit ends on a character boundary.
  lemma HitEndsAtBoundary(text: string, target: string, pos: nat)
    requires target != [] && pos <= |Encode(text)| && Encode(target) <= Encode(text)[pos..]
    ensures IsCharBoundary(text, pos + |Encode(target)|)
  {
    var k := ByteMatchIsCharMatch(text, target, pos);
  }

  /** The search loop. Slicing a `str` off a character boundary would panic: if every hit ends on a
      boundary, so does every slice. */
  method SearchBytes(haystack: seq<Byte>, needle: seq<Byte>, ghost boundaries: iset<nat>) returns (count: nat)
    requires needle != [] && 0 in boundaries
    requires forall pos :: 0 <= pos <= |haystack| && needle <= haystack[pos..] ==> pos + |needle| in boundaries
    ensures count == Greedy.Count(haystack, Matches(needle), |needle|)
  {
    var cursor := 0;
    count := 0;
    assert haystack[0..] == haystack;
    while true
      invariant cursor <= |haystack| && cursor in boundaries
      invariant count + Greedy.Count(haystack[cursor..], Matches(needle), |needle|)
             == Greedy.Count(haystack, Matches(needle), |needle|)
      decreases |haystack| - cursor
    {
      var start := FindFrom(haystack, needle, cursor);
      if start == None {
        break;
      }
      count := count + 1;
      cursor := start.value + |needle|;
      if cursor >= |haystack| {
        break;
      }
    }
  }

  /** `count_non_overlapping`: the largest number of disjoint occurrences. */
  method CountNonOverlapping(content: string, pattern: string) returns (count: nat)
    ensures count == PatternCount(content, pattern) && (pattern == [] ==> count == 0)
    ensures pattern != [] ==> exists starts :: Occurrences(content, pattern, starts) && |starts| == count
    ensures pattern != [] ==> forall starts :: Occurrences(content, pattern, starts) ==> |starts| <= count
  {
    if pattern == [] {
      return 0;
    }
    var text, target := Fold(content, pattern), Fold(pattern, pattern);
    FoldKeepsLength(pattern, pattern);
    ghost var boundaries := iset pos: nat | IsCharBoundary(text, pos);
    assert |Encode(text[..0])| == 0;
    forall pos | 0 <= pos <= |Encode(text)| && Encode(target) <= Encode(text)[pos..]
      ensures pos + |Encode(target)| in boundaries
    {
      HitEndsAtBoundary(text, target, pos);
    }
    count := SearchBytes(Encode(text), Encode(target), boundaries);
    ByteCountIsCharCount(text, target);
    LargestChoice(content, pattern);
  }

  lemma LargestChoice(content: string, pattern: string)
    requires pattern != []
    ensures exists starts :: Occurrences(content, pattern, starts) && |starts| == PatternCount(content, pattern)
    ensures forall starts :: Occurrences(content, pattern, starts) ==> |starts| <= PatternCount(content, pattern)
  {
    hide Occurrences, Greedy.Disjoint, Fold;
    var (text, hit) := (Fold(content, pattern), Matches(Fold(pattern, pattern)));
    var best := Greedy.CountAchieved(text, hit, |pattern|);
    OccurrencesAreHits(content, pattern, best);
    forall starts | Occurrences(content, pattern, starts)
      ensures |starts| <= PatternCount(content, pattern)
    {
      OccurrencesAreHits(content, pattern, starts);
      Greedy.CountIsUpperBound(text, hit, |pattern|, starts);
    }
  }

  /** `count_literal_patterns`. */
  function LiteralCount(content: string, patterns: seq<string>): nat {
    if patterns == [] then 0 else PatternCount(content, patterns[0]) + LiteralCount(content, patterns[1..])
  }

  // ---------- one pass and three passes ----------

  const HIRAGANA_PATTERN: string := [OoCounter.HIRAGANA_O, OoCounter.HIRAGANA_O]
  const KATAKANA_PATTERN: string := [OoCounter.KATAKANA_O, OoCounter.KATAKANA_O]
  const DEFAULT_PATTERNS := [HIRAGANA_PATTERN, KATAKANA_PATTERN, "oo"]

  lemma DefaultCount(content: string)
    ensures LiteralCount(content, DEFAULT_PATTERNS)
         == Greedy.Count(content, Matches(HIRAGANA_PATTERN), 2)
          + Greedy.Count(content, Matches(KATAKANA_PATTERN), 2)
          + Greedy.Count(AsciiLower(content), Matches("oo"), 2)
  {
    assert DEFAULT_PATTERNS[1..] == [KATAKANA_PATTERN, "oo"];
    assert DEFAULT_PATTERNS[1..][1..] == ["oo"];
    assert ["oo"][1..] == [];
    assert HIRAGANA_PATTERN[0] in HIRAGANA_PATTERN && KATAKANA_PATTERN[0] in KATAKANA_PATTERN;
    assert AsciiLower("oo") == "oo";
    assert LiteralCount(content, ["oo"]) == PatternCount(content, "oo");
  }

  lemma AsciiLowerDrop(s: string, n: nat)
    requires n <= |s|
    ensures AsciiLower(s)[n..] == AsciiLower(s[n..])
  {
  }

  lemma {:induction false} OnePassIsThreePasses(content: string)
    ensures OoCounter.OoCount(content)
         == Greedy.Count(content, Matches(HIRAGANA_PATTERN), 2)
          + Greedy.Count(content, Matches(KATAKANA_PATTERN), 2)
          + Greedy.Count(AsciiLower(content), Matches("oo"), 2)
    decreases |content|
  {
    if |content| >= 2 {
      var a, b := content[0], content[1];
      assert HIRAGANA_PATTERN <= content <==> a == b == OoCounter.HIRAGANA_O;
      assert KATAKANA_PATTERN <= content <==> a == b == OoCounter.KATAKANA_O;
      assert "oo" <= AsciiLower(content) <==> OoCounter.IsAsciiO(a) && OoCounter.IsAsciiO(b);
      AsciiLowerDrop(content, 1);
      AsciiLowerDrop(content, 2);
      if OoCounter.IsPair(a, b) {
        OnePassIsThreePasses(content[2..]);
        OtherAlphabetsSkip(content);
      } else {
        OnePassIsThreePasses(content[1..]);
      }
    }
  }

  // At a hit of one alphabet the two other passes step over both letters.
  lemma OtherAlphabetsSkip(content: string)
    requires |content| >= 2 && OoCounter.IsPair(content[0], content[1])
    ensures content[0] != OoCounter.HIRAGANA_O ==>
              Greedy.Count(content, Matches(HIRAGANA_PATTERN), 2) == Greedy.Count(content[2..], Matches(HIRAGANA_PATTERN), 2)
    ensures content[0] != OoCounter.KATAKANA_O ==>
              Greedy.Count(content, Matches(KATAKANA_PATTERN), 2) == Greedy.Count(content[2..], Matches(KATAKANA_PATTERN), 2)
    ensures !OoCounter.IsAsciiO(content[0]) ==>
              Greedy.Count(AsciiLower(content), Matches("oo"), 2) == Greedy.Count(AsciiLower(content)[2..], Matches("oo"), 2)
  {
    var lower := AsciiLower(content);
    forall k | 0 <= k < 2
      ensures content[0] != OoCounter.HIRAGANA_O ==> !Matches(HIRAGANA_PATTERN)(content[k..])
      ensures content[0] != OoCounter.KATAKANA_O ==> !Matches(KATAKANA_PATTERN)(content[k..])
      ensures !OoCounter.IsAsciiO(content[0]) ==> !Matches("oo")(lower[k..])
    {
      assert content[k..][0] == content[k] && lower[k..][0] == lower[k];
    }
    if content[0] != OoCounter.HIRAGANA_O { CountSkips(content, Matches(HIRAGANA_PATTERN), 2, 2); }
    if content[0] != OoCounter.KATAKANA_O { CountSkips(content, Matches(KATAKANA_PATTERN), 2, 2); }
    if !OoCounter.IsAsciiO(content[0]) { CountSkips(lower, Matches("oo"), 2, 2); }
  }

  /** The iterator of `count_oo_sequences` and the default literal patterns agree on every text. */
  lemma OoCountIsLiteralCount(content: string)
    ensures OoCounter.OoCount(content) == LiteralCount(content, DEFAULT_PATTERNS)
  {
    DefaultCount(content);
    OnePassIsThreePasses(content);
  }

  // ---------- the report ----------

  datatype Policy = Policy(literalPatterns: seq<string>, specialPhrases: seq<string>)

  // What tokenisation found: the matched target readings and the number of token hits.
  datatype TokenScan = TokenScan(readings: seq<string>, hits: nat)

  datatype Report = Report(
    matchedBackend: string,
    matchedReadings: seq<string>,
    sequenceHits: nat,
    kanjiHits: nat,
    totalCount: nat,
    specialPhraseHit: bool)

  // `matched_readings.first()`, empty when there is none.
  function FirstReading(report: Report): string {
    if report.matchedReadings == [] then "" else report.matchedReadings[0]
  }

  function Detect(content: string, policy: Policy, tokens: TokenScan): Report {
    var sequenceHits := LiteralCount(content, policy.literalPatterns);
    Report(
      "morphological_reading",
      tokens.readings,
      sequenceHits,
      tokens.hits,
      if sequenceHits + tokens.hits > USIZE_MAX then USIZE_MAX else sequenceHits + tokens.hits,
      exists phrase | phrase in policy.specialPhrases :: phrase != [] && Contains(content, phrase))
  }

  /** The report with the default patterns and one special phrase, in full: what the iterator counts plus
      the token hits, saturating at 64 bits, and whether the phrase, if there is one, occurs. */
  lemma DefaultReport(content: string, phrase: string, tokens: TokenScan)
    ensures var report := Detect(content, Policy(DEFAULT_PATTERNS, [phrase]), tokens);
            var sum := OoCounter.OoCount(content) + tokens.hits;
            && report.sequenceHits == OoCounter.OoCount(content) && report.kanjiHits == tokens.hits
            && report.totalCount == (if sum < 18446744073709551615 then sum else 18446744073709551615)
            && (report.specialPhraseHit <==> phrase != "" && Contains(content, phrase))
            && report.matchedBackend == "morphological_reading"
            && FirstReading(report) == (if tokens.readings == [] then "" else tokens.readings[0])
  {
    hide Contains;
    OoCountIsLiteralCount(content);
    assert phrase in [phrase];
  }
}
