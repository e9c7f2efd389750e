/** When redacting a redacted text again changes anything. */
module RedactingTwice {
  import opened Strings
  import opened Redaction
  import opened RedactionLaws

  // ---------- lines that are redacted already ----------

  predicate Fixed(line: string, key: string) { RedactLine(line, key) == line }

  // A redacted line has markers only in the part that was kept.
  lemma MarkersInRedacted(line: string, end: nat, key: string, pos: nat)
    requires end <= |line|
    ensures MarkerAt(line[..end] + REDACTED, key, pos) <==> pos + |key| < end && MarkerAt(line, key, pos)
  {
    var out := line[..end] + REDACTED;
    if pos + |key| < end {
      MarkerIsLocal(line, out, end, key, pos);
    } else if pos + |key| < |out| {
      assert out[pos + |key|] == REDACTED[pos + |key| - end];
      assert Marker(key)[|key|] == '=';
    }
  }

  // Cutting a line behind the first marker of `other` leaves it fixed for `key`.
  lemma CutKeepsFixed(line: string, key: string, other: string, cut: nat)
    requires MarkerAt(line, other, cut) && NoMarkerBefore(line, other, cut)
    requires key == other || Fixed(line, key)
    ensures Fixed(line[..cut + |other| + 1] + REDACTED, key)
  {
    var end := cut + |other| + 1;
    var out := line[..end] + REDACTED;
    FindMarker(out, key);
    var first := Find(AsciiUpper(out), Marker(key));
    if first.Some? {
      MarkersInRedacted(line, end, key, first.value);
      forall pos: nat | pos < first.value
        ensures !MarkerAt(line, key, pos)
      {
        MarkersInRedacted(line, end, key, pos);
      }
      CutIsAtMarker(line, key, other, cut, first.value);
      assert out[..end] == line[..end];
    }
  }

  // If a marker of `key` comes first and a marker of `other` ends no earlier, both end together.
  lemma CutIsAtMarker(line: string, key: string, other: string, cut: nat, pos: nat)
    requires MarkerAt(line, other, cut) && NoMarkerBefore(line, other, cut)
    requires MarkerAt(line, key, pos) && NoMarkerBefore(line, key, pos)
    requires key == other || Fixed(line, key)
    requires pos + |key| <= cut + |other|
    ensures pos + |key| == cut + |other|
  {
    hide Find, AsciiUpper, RedactLine, IsBlank, TrimEnd;
    if key != other {
      hide NoMarkerBefore;
      RedactAt(line, key, pos);
      MarkerIsVisible(line, other, cut);
      EqualsIsKept(line[..pos + |key| + 1], cut + |other|);
    }
  }

  lemma EqualsIsKept(head: string, i: nat)
    requires i < |head + REDACTED| && (head + REDACTED)[i] == '='
    ensures i < |head|
  {
    assert '=' !in REDACTED;
    assert forall k :: 0 <= k < |REDACTED| ==> (head + REDACTED)[|head| + k] == REDACTED[k];
  }

  /** One key, applied twice, or after another key, changes nothing that it had fixed. */
  lemma RedactKeepsFixed(line: string, key: string, other: string)
    requires key == other || Fixed(line, key)
    ensures Fixed(RedactLine(line, other), key)
  {
    hide Find, AsciiUpper, MarkerAt, NoMarkerBefore;
    FindMarker(line, other);
    match Find(AsciiUpper(line), Marker(other))
    case None =>
    case Some(cut) => CutKeepsFixed(line, key, other, cut);
  }

  lemma EndsKeepFixed(line: string, key: string)
    requires Fixed(line, key)
    ensures Fixed(TrimEnd(line), key) && Fixed(StripCr(line), key)
  {
    hide MarkerAt, Find, AsciiUpper;
    FindMarker(line, key);
    if Find(AsciiUpper(line), Marker(key)).Some? {
      assert line[|line| - 1] == REDACTED[|REDACTED| - 1] == '>';
    } else {
      hide RedactLine, NoMarkerBefore;
      PrefixHasNoMarker(line, TrimEnd(line), key);
      PrefixHasNoMarker(line, StripCr(line), key);
    }
  }

  lemma PrefixHasNoMarker(line: string, prefix: string, key: string)
    requires NoMarkerBefore(line, key, |line|) && prefix <= line
    ensures NoMarkerBefore(prefix, key, |prefix|) && Fixed(prefix, key)
  {
    forall pos: nat | pos + |key| < |prefix|
      ensures !MarkerAt(prefix, key, pos)
    {
      MarkerIsLocal(line, prefix, |prefix|, key, pos);
    }
    RedactNothing(prefix, key);
  }

  ghost predicate FixedLines(lines: seq<string>, keys: seq<string>, n: nat)
    requires n <= |keys|
  {
    forall j, k {:trigger Fixed(lines[j], keys[k])} :: 0 <= j < |lines| && 0 <= k < n ==> Fixed(lines[j], keys[k])
  }

  lemma StripAllFixed(lines: seq<string>, keys: seq<string>, n: nat)
    requires n <= |keys| && FixedLines(lines, keys, n)
    ensures FixedLines(StripAll(lines), keys, n)
  {
    forall j, k | 0 <= j < |lines| && 0 <= k < n
      ensures Fixed(StripCr(lines[j]), keys[k])
    {
      EndsKeepFixed(lines[j], keys[k]);
    }
  }

  lemma {:induction false} SettledFixed(lines: seq<string>, keys: seq<string>, n: nat)
    requires n <= |keys| && FixedLines(lines, keys, n)
    ensures FixedLines(Settled(lines), keys, n)
    decreases |lines|
  {
    if lines != [] {
      var m := |lines| - 1;
      if IsBlank(lines[m]) {
        SettledFixed(lines[..m], keys, n);
      } else {
        StripAllFixed(lines[..m], keys, n);
        forall k | 0 <= k < n
          ensures Fixed(TrimEnd(lines[m]), keys[k])
        {
          EndsKeepFixed(lines[m], keys[k]);
        }
      }
    }
  }

  lemma PassFixes(lines: seq<string>, keys: seq<string>, n: nat)
    requires n < |keys| && FixedLines(lines, keys, n)
    ensures FixedLines(PassLines(lines, keys[n]), keys, n + 1)
  {
    var redacted := RedactLines(lines, keys[n]);
    forall j, k | 0 <= j < |redacted| && 0 <= k < n + 1
      ensures Fixed(redacted[j], keys[k])
    {
      RedactKeepsFixed(lines[j], keys[k], keys[n]);
    }
    SettledFixed(redacted, keys, n + 1);
  }

  /** After each key, all lines are fixed for it and for the keys before it. */
  lemma {:induction false} PassesFix(lines: seq<string>, keys: seq<string>, n: nat) returns (fixed: seq<string>)
    requires n <= |keys|
    ensures fixed == LinesUpTo(lines, keys, n) && FixedLines(fixed, keys, n)
  {
    hide PassLines;
    if n == 0 {
      fixed := lines;
    } else {
      fixed := PassesFix(lines, keys, n - 1);
      PassFixes(fixed, keys, n - 1);
      NextLines(lines, keys, n - 1, fixed);
      fixed := PassLines(fixed, keys[n - 1]);
    }
  }

  // On fixed lines a pass only splits the text and puts it together again.
  function Rejoined(text: string): string { TrimEnd(Unlines(Lines(text))) }

  lemma PassRejoins(text: string, keys: seq<string>, k: nat)
    requires k < |keys| && FixedLines(Lines(text), keys, |keys|)
    ensures RedactPair(text, keys[k]) == Rejoined(text)
    ensures FixedLines(Lines(Rejoined(text)), keys, |keys|)
  {
    assert forall j :: 0 <= j < |Lines(text)| ==> Fixed(Lines(text)[j], keys[k]);
    assert RedactLines(Lines(text), keys[k]) == Lines(text);
    PairSettles(text, keys[k]);
    SettledFixed(Lines(text), keys, |keys|);
  }

  // A line still ends in a carriage return.
  ghost predicate HasCrLf(text: string) {
    exists i :: 0 <= i < |text| - 1 && text[i] == '\r' && text[i + 1] == '\n'
  }

  lemma FirstNewlineSplits(text: string, k: nat)
    requires Find(text, "\n") == Some(k)
    ensures text == text[..k] + "\n" + text[k + 1..] && text[k] == '\n'
  {
    hide Find;
    FindIsFirst(text, "\n");
    assert text[k..][0] == '\n';
  }

  lemma FirstLineOfLines(text: string, k: nat)
    requires Find(text, "\n") == Some(k)
    ensures Lines(text) == [StripCr(text[..k])] + Lines(text[k + 1..])
  {
    hide Find, StripCr;
  }

  // Taking a text apart at its first newline.
  lemma SplitFirst(text: string, k: nat)
    requires Find(text, "\n") == Some(k)
    ensures Unlines(Lines(text)) == StripCr(text[..k]) + "\n" + Unlines(Lines(text[k + 1..]))
    ensures text == text[..k] + "\n" + text[k + 1..] && text[k] == '\n'
  {
    hide Find, Lines, Unlines, StripCr;
    FirstNewlineSplits(text, k);
    FirstLineOfLines(text, k);
    UnlinesCons(StripCr(text[..k]), Lines(text[k + 1..]));
  }

  lemma OnlyLine(text: string)
    requires text != "" && Find(text, "\n") == None
    ensures Unlines(Lines(text)) == text + "\n" && !HasCrLf(text)
  {
    assert Unlines([text]) == "" + text + "\n";
    FindIsFirst(text, "\n");
    forall i | 0 <= i < |text|
      ensures text[i] != '\n'
    {
      assert text[i..][0] == text[i];
    }
  }

  // Where a carriage return before a newline can be, seen from the first newline.
  lemma CrLfWhere(text: string, k: nat)
    requires Find(text, "\n") == Some(k) && HasCrLf(text)
    ensures HasCrLf(text[k + 1..]) || (k > 0 && text[k - 1] == '\r')
  {
    hide Lines, Unlines, StripCr;
    var i :| 0 <= i < |text| - 1 && text[i] == '\r' && text[i + 1] == '\n';
    SplitFirst(text, k);
    FindIsFirst(text, "\n");
    assert text[i + 1..][0] == '\n';
    if i + 1 > k {
      var rest := text[k + 1..];
      assert rest[i - k - 1] == '\r' && rest[i - k] == '\n';
    }
  }

  lemma {:induction false} RejoiningLength(text: string)
    requires text != ""
    ensures |Unlines(Lines(text))| + (if HasCrLf(text) then 1 else 0) <= |text| + 1
    decreases |text|
  {
    hide Find, HasCrLf;
    match Find(text, "\n")
    case None => OnlyLine(text);
    case Some(k) =>
      var rest := text[k + 1..];
      SplitFirst(text, k);
      if rest != "" {
        RejoiningLength(rest);
      }
      if HasCrLf(text) {
        CrLfWhere(text, k);
      }
  }

  lemma {:induction false} RejoiningKeeps(text: string)
    requires !HasCrLf(text)
    ensures Unlines(Lines(text)) == text || Unlines(Lines(text)) == text + "\n"
    decreases |text|
  {
    if text != "" {
      match Find(text, "\n")
      case None => OnlyLine(text);
      case Some(k) =>
        var rest := text[k + 1..];
        SplitFirst(text, k);
        assert forall i :: 0 <= i < |rest| ==> rest[i] == text[k + 1 + i];
        RejoiningKeeps(rest);
        assert k > 0 ==> text[k - 1] != '\r';
        assert StripCr(text[..k]) == text[..k];
    }
  }

  predicate Trimmed(text: string) { TrimEnd(text) == text }

  lemma TrimmedAgain(text: string)
    ensures Trimmed(TrimEnd(text))
  {
  }

  lemma RejoinedSame(text: string)
    requires Trimmed(text) && !HasCrLf(text)
    ensures Rejoined(text) == text
  {
    RejoiningKeeps(text);
    TrimBlankEnd(text, "\n");
  }

  lemma RejoinedShorter(text: string)
    ensures |Rejoined(text)| <= |text| && (HasCrLf(text) ==> |Rejoined(text)| < |text|)
  {
    if text != "" {
      RejoiningLength(text);
      var joined := Unlines(Lines(text));
      assert joined != "" ==> joined[|joined| - 1] == '\n';
    }
  }

  // A further pass on a text that is trimmed, with fixed lines.
  lemma PassAgain(text: string, keys: seq<string>, k: nat)
    requires k < |keys| && FixedLines(Lines(text), keys, |keys|) && Trimmed(text)
    ensures var next := RedactPair(text, keys[k]);
            && FixedLines(Lines(next), keys, |keys|) && Trimmed(next)
            && (if HasCrLf(text) then |next| < |text| else next == text)
  {
    PassRejoins(text, keys, k);
    TrimmedAgain(Unlines(Lines(text)));
    RejoinedShorter(text);
    if !HasCrLf(text) {
      RejoinedSame(text);
    }
  }

  lemma {:induction false} PassesAgain(text: string, keys: seq<string>, n: nat)
    requires n <= |keys| && FixedLines(Lines(text), keys, |keys|) && Trimmed(text)
    ensures var out := RedactUpTo(text, keys, n);
            && FixedLines(Lines(out), keys, |keys|) && Trimmed(out)
            && |out| <= |text| && (n > 0 && HasCrLf(text) ==> |out| < |text|) && (!HasCrLf(text) ==> out == text)
  {
    hide RedactPair, Lines, FixedLines, HasCrLf, TrimEnd;
    if n > 0 {
      var before := RedactUpTo(text, keys, n - 1);
      PassesAgain(text, keys, n - 1);
      PassAgain(before, keys, n - 1);
      NextText(text, keys, n - 1, before);
    }
  }

  // Redacting again changes the output exactly if a line of it still ends in a carriage return.
  lemma RedactingOutput(input: string, keys: seq<string>)
    requires keys != []
    ensures var out := RedactAll(input, keys);
            RedactAll(out, keys) == out <==> !HasCrLf(out)
  {
    OutputIsSettled(input, keys);
    PassesAgain(RedactAll(input, keys), keys, |keys|);
  }

  lemma OutputIsSettled(input: string, keys: seq<string>)
    requires keys != []
    ensures FixedLines(Lines(RedactAll(input, keys)), keys, |keys|) && Trimmed(RedactAll(input, keys))
  {
    var n: nat := |keys| - 1;
    PassesOnLines(input, keys, |keys|);
    var fixed := PassesFix(Lines(input), keys, |keys|);
    TrimmedAgain(Unlines(RedactLines(Lines(RedactUpTo(input, keys, n)), keys[n])));
  }

  // ---------- carriage returns through the passes ----------

  /** How many carriage returns a line ends in. */
  function CrTail(line: string): nat {
    if line != "" && line[|line| - 1] == '\r' then 1 + CrTail(line[..|line| - 1]) else 0
  }

  /** No marker of a key from the `from`-th on. */
  ghost predicate Unmarked(line: string, keys: seq<string>, from: nat) {
    forall k {:trigger NoMarkerBefore(line, keys[k], |line|)} :: from <= k < |keys| ==> NoMarkerBefore(line, keys[k], |line|)
  }

  ghost predicate TooLong(line: string, keys: seq<string>, from: nat, n: nat) {
    Unmarked(line, keys, from) && CrTail(line) >= n
  }

  /** Some line without markers ends in at least `n` carriage returns and stands before a visible one. */
  ghost predicate TooMany(lines: seq<string>, keys: seq<string>, from: nat, n: nat) {
    exists j: nat, m: nat :: j < m < |lines| && TooLong(lines[j], keys, from, n) && !IsBlank(lines[m])
  }

  // A redacted line ends in no carriage return.
  lemma MarkedLine(line: string, key: string)
    requires !NoMarkerBefore(line, key, |line|)
    ensures CrTail(RedactLine(line, key)) == 0 && StripCr(RedactLine(line, key)) == RedactLine(line, key)
  {
    FindMarker(line, key);
    assert REDACTED[|REDACTED| - 1] == '>';
  }

  lemma StripKeepsMarkers(line: string, key: string)
    ensures NoMarkerBefore(StripCr(line), key, |StripCr(line)|) <==> NoMarkerBefore(line, key, |line|)
  {
    hide StripCr;
    if !NoMarkerBefore(line, key, |line|) {
      var pos: nat :| pos < |line| && MarkerAt(line, key, pos);
      MarkerIsVisible(line, key, pos);
      MarkerIsLocal(line, StripCr(line), pos + |key| + 1, key, pos);
    } else {
      StripIsPrefix(line);
      PrefixHasNoMarker(line, StripCr(line), key);
    }
  }

  lemma StripIsPrefix(line: string)
    ensures StripCr(line) <= line
    ensures CrTail(StripCr(line)) == if CrTail(line) == 0 then 0 else CrTail(line) - 1
  {
  }

  lemma StripKeepsUnmarked(line: string, keys: seq<string>, from: nat)
    ensures Unmarked(StripCr(line), keys, from) <==> Unmarked(line, keys, from)
  {
    hide StripCr, NoMarkerBefore;
    forall k | from <= k < |keys|
      ensures NoMarkerBefore(StripCr(line), keys[k], |StripCr(line)|) <==> NoMarkerBefore(line, keys[k], |line|)
    {
      StripKeepsMarkers(line, keys[k]);
    }
  }

  // One pass on a line that stays inside the text.
  lemma LinePass(line: string, keys: seq<string>, from: nat, n: nat)
    requires from < |keys| && n >= 2
    ensures TooLong(line, keys, from, n) <==> TooLong(StripCr(RedactLine(line, keys[from])), keys, from + 1, n - 1)
  {
    hide StripCr, NoMarkerBefore, CrTail, RedactLine;
    if NoMarkerBefore(line, keys[from], |line|) {
      RedactNothing(line, keys[from]);
      StripKeepsUnmarked(line, keys, from + 1);
      StripIsPrefix(line);
      assert Unmarked(line, keys, from) <==> Unmarked(line, keys, from + 1);
    } else {
      MarkedLine(line, keys[from]);
    }
  }

  // The last pass.
  lemma LastLinePass(line: string, keys: seq<string>, from: nat)
    requires from + 1 == |keys|
    ensures TooLong(line, keys, from, 1) <==> CrTail(RedactLine(line, keys[from])) >= 1
  {
    hide NoMarkerBefore, CrTail, RedactLine;
    if NoMarkerBefore(line, keys[from], |line|) {
      RedactNothing(line, keys[from]);
    } else {
      MarkedLine(line, keys[from]);
    }
  }

  lemma PassKeepsBlank(line: string, key: string)
    ensures IsBlank(RedactLine(line, key)) <==> IsBlank(line)
  {
    FindMarker(line, key);
    var found := Find(AsciiUpper(line), Marker(key));
    if found.Some? {
      MarkerIsVisible(line, key, found.value);
      var out := RedactLine(line, key);
      assert out[|out| - 1] == REDACTED[|REDACTED| - 1] == '>' && out[|out| - 1] in out;
    }
  }

  lemma EndsKeepBlank(line: string)
    ensures IsBlank(StripCr(line)) <==> IsBlank(line)
    ensures IsBlank(TrimEnd(line)) <==> IsBlank(line)
  {
    TrimEndBlank(line);
    var strip := StripCr(line);
    assert forall c :: c in line ==> c in strip || c == '\r';
  }

  lemma TrimEndBlank(line: string)
    ensures IsBlank(TrimEnd(line)) <==> IsBlank(line)
  {
    var trimmed := TrimEnd(line);
    assert forall k :: 0 <= k < |trimmed| ==> trimmed[k] == line[k];
    if IsBlank(trimmed) {
      forall c | c in line
        ensures IsWhitespace(c)
      {
        var k :| 0 <= k < |line| && line[k] == c;
        assert k < |trimmed| ==> trimmed[k] in trimmed;
      }
    }
  }

  // What `Settled` does, line by line.
  lemma {:induction false} SettledShape(lines: seq<string>)
    ensures var s := Settled(lines);
            && |s| <= |lines|
            && (forall j :: 0 <= j < |s| - 1 ==> s[j] == StripCr(lines[j]))
            && (s != [] ==> s[|s| - 1] == TrimEnd(lines[|s| - 1]))
            && (forall m :: |s| <= m < |lines| ==> IsBlank(lines[m]))
  {
    hide StripCr, TrimEnd, IsBlank;
    if lines != [] && IsBlank(lines[|lines| - 1]) {
      SettledShape(lines[..|lines| - 1]);
    }
  }

  lemma {:induction false} SettledVisible(lines: seq<string>, m: nat)
    requires m < |Settled(lines)|
    ensures m < |lines| && (IsBlank(Settled(lines)[m]) <==> IsBlank(lines[m]))
  {
    hide Settled, StripCr, TrimEnd, IsBlank;
    SettledShape(lines);
    EndsKeepBlank(lines[m]);
  }

  lemma PassTooMany(lines: seq<string>, keys: seq<string>, from: nat, n: nat)
    requires from < |keys| && n >= 2
    ensures TooMany(lines, keys, from, n) <==> TooMany(PassLines(lines, keys[from]), keys, from + 1, n - 1)
  {
    hide Settled, StripCr, TrimEnd, IsBlank, TooLong, RedactLine;
    var redacted := RedactLines(lines, keys[from]);
    var after := Settled(redacted);
    SettledShape(redacted);
    forall j: nat | j < |lines|
      ensures TooLong(lines[j], keys, from, n) <==> TooLong(StripCr(redacted[j]), keys, from + 1, n - 1)
      ensures IsBlank(redacted[j]) <==> IsBlank(lines[j])
    {
      LinePass(lines[j], keys, from, n);
      PassKeepsBlank(lines[j], keys[from]);
    }
    forall m: nat | m < |after|
      ensures IsBlank(after[m]) <==> IsBlank(lines[m])
    {
      SettledVisible(redacted, m);
    }
  }

  lemma {:induction false} PassesTooMany(lines: seq<string>, keys: seq<string>, n: nat) returns (after: seq<string>)
    requires n < |keys|
    ensures after == LinesUpTo(lines, keys, n)
    ensures TooMany(lines, keys, 0, |keys|) <==> TooMany(after, keys, n, |keys| - n)
  {
    hide TooMany, PassLines;
    if n == 0 {
      after := lines;
    } else {
      after := PassesTooMany(lines, keys, n - 1);
      PassTooMany(after, keys, n - 1, |keys| - n + 1);
      NextLines(lines, keys, n - 1, after);
      after := PassLines(after, keys[n - 1]);
    }
  }

  // ---------- the text that comes out ----------

  /** A line ends in a carriage return and stands before a visible one. */
  ghost predicate Dangles(lines: seq<string>) {
    exists j: nat, m: nat :: j < m < |lines| && CrTail(lines[j]) >= 1 && !IsBlank(lines[m])
  }

  lemma LastPassDangles(lines: seq<string>, keys: seq<string>, from: nat)
    requires from + 1 == |keys|
    ensures TooMany(lines, keys, from, 1) <==> Dangles(RedactLines(lines, keys[from]))
  {
    hide IsBlank, TooLong, RedactLine, CrTail;
    var redacted := RedactLines(lines, keys[from]);
    forall j: nat | j < |lines|
      ensures TooLong(lines[j], keys, from, 1) <==> CrTail(redacted[j]) >= 1
      ensures IsBlank(redacted[j]) <==> IsBlank(lines[j])
    {
      LastLinePass(lines[j], keys, from);
      PassKeepsBlank(lines[j], keys[from]);
    }
  }

  lemma CrLfAcross(a: string, t: string)
    requires OneLine(t)
    ensures HasCrLf(a + "\n" + t) <==> HasCrLf(a) || CrTail(a) >= 1
  {
    var s := a + "\n" + t;
    assert forall i :: 0 <= i < |a| ==> s[i] == a[i];
    assert s[|a|] == '\n';
    assert forall i :: |a| < i < |s| ==> s[i] == t[i - |a| - 1] != '\n';
    if HasCrLf(a) {
      var i :| 0 <= i < |a| - 1 && a[i] == '\r' && a[i + 1] == '\n';
      assert s[i] == '\r' && s[i + 1] == '\n';
    }
    if CrTail(a) >= 1 {
      assert s[|a| - 1] == '\r' && s[|a| - 1 + 1] == '\n';
    }
  }

  lemma CrTailOfLast(a: string, x: string)
    requires OneLine(x) && (a != "" ==> a[|a| - 1] == '\n')
    ensures CrTail(a + x) >= 1 <==> CrTail(x) >= 1
  {
    if x == "" {
      assert a + x == a;
    } else {
      assert (a + x)[|a + x| - 1] == x[|x| - 1];
    }
  }

  lemma UnlinesEnds(lines: seq<string>)
    ensures Unlines(lines) != "" ==> Unlines(lines)[|Unlines(lines)| - 1] == '\n'
  {
  }

  lemma {:induction false} CrLfInUnlines(lines: seq<string>, t: string)
    requires AllOneLine(lines) && OneLine(t)
    ensures HasCrLf(Unlines(lines) + t) <==> exists j: nat :: j < |lines| && CrTail(lines[j]) >= 1
    decreases |lines|
  {
    if lines == [] {
      assert Unlines(lines) + t == t;
      assert !HasCrLf(t);
    } else {
      var (before, last) := (lines[..|lines| - 1], lines[|lines| - 1]);
      var a := Unlines(before) + last;
      assert Unlines(lines) + t == a + "\n" + t;
      hide Unlines, HasCrLf, CrTail;
      CrLfAcross(a, t);
      UnlinesEnds(before);
      CrTailOfLast(Unlines(before), last);
      CrLfInUnlines(before, last);
      assert forall j: nat :: j < |before| ==> before[j] == lines[j];
    }
  }

  lemma {:induction false} CrLfInSettled(lines: seq<string>)
    requires AllOneLine(lines)
    ensures HasCrLf(SettledText(lines)) <==> Dangles(lines)
    decreases |lines|
  {
    hide HasCrLf, CrTail, IsBlank, TrimEnd;
    if lines == [] {
      NoCrLfInNothing();
    } else {
      var (before, last) := (lines[..|lines| - 1], lines[|lines| - 1]);
      assert forall j: nat :: j < |before| ==> before[j] == lines[j];
      if IsBlank(last) {
        CrLfInSettled(before);
      } else {
        TrimKeepsOneLine(last);
        CrLfInUnlines(before, TrimEnd(last));
      }
    }
  }

  lemma NoCrLfInNothing()
    ensures !HasCrLf("")
  {
  }

  lemma TrimKeepsOneLine(line: string)
    requires OneLine(line)
    ensures OneLine(TrimEnd(line))
  {
    var trimmed := TrimEnd(line);
    assert forall k :: 0 <= k < |trimmed| ==> trimmed[k] == line[k] && line[k] in line;
  }

  lemma RedactKeepsOneLines(lines: seq<string>, key: string)
    requires AllOneLine(lines)
    ensures AllOneLine(RedactLines(lines, key))
  {
    hide RedactLine, OneLine;
    forall j | 0 <= j < |lines|
      ensures OneLine(RedactLine(lines[j], key))
    {
      RedactKeepsOneLine(lines[j], key);
    }
  }

  lemma OutputDangles(input: string, keys: seq<string>)
    requires keys != []
    ensures HasCrLf(RedactAll(input, keys)) <==> TooMany(Lines(input), keys, 0, |keys|)
  {
    hide HasCrLf, TooMany, Dangles, RedactAll, RedactLines, SettledText, Lines;
    var n: nat := |keys| - 1;
    var last := PassesTooMany(Lines(input), keys, n);
    var redacted := RedactLines(last, keys[n]);
    LastPassDangles(last, keys, n);
    PassesOnLines(input, keys, n);
    LinesAreOneLine(RedactUpTo(input, keys, n));
    RedactKeepsOneLines(last, keys[n]);
    CrLfInSettled(redacted);
    LastPass(input, keys);
  }

  /** Redacting again changes nothing, unless some line of the input without any key ends in at least as
      many carriage returns as there are keys (not counting the one that belongs to its newline) and
      stands before a line that is not blank: splitting a text into lines takes one off in every pass. */
  lemma RedactingAgain(input: string, keys: seq<string>)
    requires keys != []
    ensures RedactAll(RedactAll(input, keys), keys) == RedactAll(input, keys)
       <==> !TooMany(Lines(input), keys, 0, |keys|)
  {
    hide RedactAll, TooMany, HasCrLf;
    RedactingOutput(input, keys);
    OutputDangles(input, keys);
  }

  // ---------- texts for which it does ----------

  function CarriageReturns(n: nat): (r: string)
    ensures |r| == n && forall i :: 0 <= i < n ==> r[i] == '\r'
  {
    seq(n, _ => '\r')
  }

  lemma {:induction false} CrTailCounts(x: string, n: nat)
    ensures CrTail(x + CarriageReturns(n)) >= n
  {
    if n > 0 {
      var line := x + CarriageReturns(n);
      assert line[..|line| - 1] == x + CarriageReturns(n - 1);
      CrTailCounts(x, n - 1);
    }
  }

  /** In particular two lines without keys, the first with more carriage returns than there are keys. */
  lemma RedactingAgainCanChange(keys: seq<string>, x: string, n: nat, y: string)
    requires n > |keys| > 0
    requires OneLine(x) && OneLine(y) && '=' !in x && !IsBlank(y)
    ensures var input := x + CarriageReturns(n) + "\n" + y;
            RedactAll(RedactAll(input, keys), keys) != RedactAll(input, keys)
  {
    hide RedactAll, CrTail, Find, IsBlank;
    var (line, stripped) := (x + CarriageReturns(n), x + CarriageReturns(n - 1));
    LinesCons(line, y);
    assert y != "" by { VisibleIsNotEmpty(y); }
    LastLine(y);
    assert line[..|line| - 1] == stripped;
    CrTailCounts(x, n - 1);
    PlainIsUnmarked(stripped, keys);
    var lines := [stripped] + [y];
    assert lines[0] == stripped && lines[1] == y && TooLong(lines[0], keys, 0, |keys|);
    RedactingAgain(line + "\n" + y, keys);
  }

  lemma VisibleIsNotEmpty(y: string)
    requires !IsBlank(y)
    ensures y != ""
  {
  }

  lemma PlainIsUnmarked(line: string, keys: seq<string>)
    requires '=' !in line
    ensures Unmarked(line, keys, 0)
  {
    forall k | 0 <= k < |keys|
      ensures NoMarkerBefore(line, keys[k], |line|)
    {
      assert Marker(keys[k])[|keys[k]|] == '=';
    }
  }
}
