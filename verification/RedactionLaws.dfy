/** What redaction guarantees: the value never matters, and when redacting again changes anything. */
module RedactionLaws {
  import opened Strings
  import opened Redaction

  // ---------- markers ----------

  // The character stands for that of a key: it is the same, or the lower-case letter of a capital. Lines
  // are compared in upper case, so a lower-case letter in a key is matched by nothing.
  predicate StandsFor(c: char, k: char) {
    (c == k && !('a' <= k <= 'z')) || ('A' <= k <= 'Z' && c as int == k as int + 32)
  }

  /** `KEY=` stands at this position, in any case. */
  predicate MarkerAt(line: string, key: string, pos: nat) {
    && pos + |key| < |line| && line[pos + |key|] == '='
    && forall i :: 0 <= i < |key| ==> StandsFor(line[pos + i], key[i])
  }

  lemma UpperStandsFor(c: char, k: char)
    ensures AsciiUpperChar(c) == k <==> StandsFor(c, k)
  {
  }

  ghost predicate NoMarkerBefore(line: string, key: string, limit: nat) {
    forall pos: nat :: pos < limit ==> !MarkerAt(line, key, pos)
  }

  lemma MarkerIsPrefix(line: string, key: string, pos: nat)
    requires pos <= |line|
    ensures Marker(key) <= AsciiUpper(line)[pos..] <==> MarkerAt(line, key, pos)
  {
    var (upper, marker) := (AsciiUpper(line), Marker(key));
    if pos + |key| < |line| {
      forall i | 0 <= i <= |key|
        ensures upper[pos..][i] == marker[i] <==> StandsFor(line[pos + i], marker[i])
      {
        UpperStandsFor(line[pos + i], marker[i]);
      }
      assert forall i :: 0 <= i < |key| ==> marker[i] == key[i];
      assert marker[|key|] == '=';
    }
    if MarkerAt(line, key, pos) {
      assert upper[pos..][..|key| + 1] == marker;
    }
    if marker <= upper[pos..] {
      assert forall i :: 0 <= i <= |key| ==> upper[pos..][i] == marker[i];
    }
  }

  lemma FindMarker(line: string, key: string)
    ensures match Find(AsciiUpper(line), Marker(key))
            case None => NoMarkerBefore(line, key, |line|)
            case Some(pos) => MarkerAt(line, key, pos) && NoMarkerBefore(line, key, pos)
  {
    FindIsFirst(AsciiUpper(line), Marker(key));
    forall pos: nat | pos <= |line|
      ensures Marker(key) <= AsciiUpper(line)[pos..] <==> MarkerAt(line, key, pos)
    {
      MarkerIsPrefix(line, key, pos);
    }
  }

  lemma RedactAt(line: string, key: string, pos: nat)
    requires MarkerAt(line, key, pos) && NoMarkerBefore(line, key, pos)
    ensures RedactLine(line, key) == line[..pos + |key| + 1] + REDACTED
  {
    FindMarker(line, key);
  }

  lemma RedactNothing(line: string, key: string)
    requires NoMarkerBefore(line, key, |line|)
    ensures RedactLine(line, key) == line
  {
    FindMarker(line, key);
  }

  predicate SameUpTo(x: string, y: string, end: nat) {
    end <= |x| && end <= |y| && x[..end] == y[..end]
  }

  // Whether a marker stands somewhere depends on the text up to its end only.
  lemma MarkerIsLocal(x: string, y: string, end: nat, key: string, pos: nat)
    requires SameUpTo(x, y, end) && pos + |key| < end
    ensures MarkerAt(x, key, pos) <==> MarkerAt(y, key, pos)
  {
    forall i | 0 <= i < end
      ensures x[i] == y[i]
    {
      assert x[..end][i] == y[..end][i];
    }
  }

  lemma RedactKeepsBefore(line: string, key: string, end: nat)
    requires end <= |line| && forall pos: nat :: pos + |key| < end ==> !MarkerAt(line, key, pos)
    ensures SameUpTo(line, RedactLine(line, key), end)
  {
    FindMarker(line, key);
  }

  // ---------- the value does not matter ----------

  /** Equal, or alike up to and including a marker of a key from the `i`-th on. */
  ghost predicate Alike(x: string, y: string, keys: seq<string>, i: nat) {
    x == y || exists k: nat, pos: nat :: i <= k < |keys| && MarkerAt(x, keys[k], pos) && SameUpTo(x, y, pos + |keys[k]| + 1)
  }

  lemma RedactTogether(x: string, y: string, key: string, pos: nat, end: nat)
    requires SameUpTo(x, y, end) && pos + |key| < end && MarkerAt(x, key, pos) && NoMarkerBefore(x, key, pos)
    ensures RedactLine(x, key) == RedactLine(y, key)
  {
    forall p: nat | p <= pos
      ensures MarkerAt(x, key, p) <==> MarkerAt(y, key, p)
    {
      MarkerIsLocal(x, y, end, key, p);
    }
    RedactAt(x, key, pos);
    RedactAt(y, key, pos);
    assert x[..end][..pos + |key| + 1] == x[..pos + |key| + 1];
    assert y[..end][..pos + |key| + 1] == y[..pos + |key| + 1];
  }

  lemma RedactKeepsAlike(x: string, y: string, keys: seq<string>, i: nat)
    requires i < |keys| && Alike(x, y, keys, i)
    ensures Alike(RedactLine(x, keys[i]), RedactLine(y, keys[i]), keys, i + 1)
  {
    hide Find, AsciiUpper, RedactLine, MarkerAt;
    if x != y {
      var key := keys[i];
      var k: nat, pos: nat :| i <= k < |keys| && MarkerAt(x, keys[k], pos) && SameUpTo(x, y, pos + |keys[k]| + 1);
      var end := pos + |keys[k]| + 1;
      FindMarker(x, key);
      var first := Find(AsciiUpper(x), Marker(key));
      if first.Some? && first.value + |key| < end {
        RedactTogether(x, y, key, first.value, end);
      } else {
        RedactApart(x, y, keys, i, k, pos);
      }
    }
  }

  // No marker of key `i` in the part that is alike: it stays alike.
  lemma RedactApart(x: string, y: string, keys: seq<string>, i: nat, k: nat, pos: nat)
    requires i <= k < |keys| && MarkerAt(x, keys[k], pos) && SameUpTo(x, y, pos + |keys[k]| + 1)
    requires forall p: nat :: p + |keys[i]| < pos + |keys[k]| + 1 ==> !MarkerAt(x, keys[i], p)
    ensures Alike(RedactLine(x, keys[i]), RedactLine(y, keys[i]), keys, i + 1)
  {
    var (key, end) := (keys[i], pos + |keys[k]| + 1);
    var (x', y') := (RedactLine(x, key), RedactLine(y, key));
    forall p: nat | p + |key| < end
      ensures !MarkerAt(y, key, p)
    {
      MarkerIsLocal(x, y, end, key, p);
    }
    RedactKeepsBefore(x, key, end);
    RedactKeepsBefore(y, key, end);
    MarkerIsLocal(x, x', end, keys[k], pos);
    assert i + 1 <= k < |keys| && MarkerAt(x', keys[k], pos) && SameUpTo(x', y', pos + |keys[k]| + 1);
  }

  lemma MarkerIsVisible(line: string, key: string, pos: nat)
    requires MarkerAt(line, key, pos)
    ensures line[pos + |key|] == '=' && !IsBlank(line)
    ensures SameUpTo(line, TrimEnd(line), pos + |key| + 1) && SameUpTo(line, StripCr(line), pos + |key| + 1)
  {
    assert line[pos + |key|] in line;
  }

  lemma EndsKeepAlike(x: string, y: string, keys: seq<string>, i: nat)
    requires Alike(x, y, keys, i)
    ensures IsBlank(x) <==> IsBlank(y)
    ensures Alike(TrimEnd(x), TrimEnd(y), keys, i) && Alike(StripCr(x), StripCr(y), keys, i)
  {
    hide TrimEnd, StripCr, IsBlank, MarkerAt;
    if x != y {
      var k: nat, pos: nat :| i <= k < |keys| && MarkerAt(x, keys[k], pos) && SameUpTo(x, y, pos + |keys[k]| + 1);
      var (key, end) := (keys[k], pos + |keys[k]| + 1);
      MarkerIsLocal(x, y, end, key, pos);
      MarkerIsVisible(x, key, pos);
      MarkerIsVisible(y, key, pos);
      MarkerIsLocal(x, TrimEnd(x), end, key, pos);
      MarkerIsLocal(x, StripCr(x), end, key, pos);
    }
  }

  ghost predicate AlikeLines(a: seq<string>, b: seq<string>, keys: seq<string>, i: nat) {
    |a| == |b| && forall j {:trigger Alike(a[j], b[j], keys, i)} :: 0 <= j < |a| ==> Alike(a[j], b[j], keys, i)
  }

  lemma StripAllAlike(a: seq<string>, b: seq<string>, keys: seq<string>, i: nat)
    requires AlikeLines(a, b, keys, i)
    ensures AlikeLines(StripAll(a), StripAll(b), keys, i)
  {
    forall j | 0 <= j < |a|
      ensures Alike(StripCr(a[j]), StripCr(b[j]), keys, i)
    {
      EndsKeepAlike(a[j], b[j], keys, i);
    }
  }

  lemma {:induction false} SettledAlike(a: seq<string>, b: seq<string>, keys: seq<string>, i: nat)
    requires AlikeLines(a, b, keys, i)
    ensures AlikeLines(Settled(a), Settled(b), keys, i)
    decreases |a|
  {
    if a != [] {
      var n := |a| - 1;
      EndsKeepAlike(a[n], b[n], keys, i);
      if IsBlank(a[n]) {
        SettledAlike(a[..n], b[..n], keys, i);
      } else {
        StripAllAlike(a[..n], b[..n], keys, i);
      }
    }
  }

  lemma RedactKeepsOneLine(line: string, key: string)
    requires OneLine(line)
    ensures OneLine(RedactLine(line, key))
  {
    FindMarker(line, key);
  }

  lemma PairSettles(input: string, key: string)
    ensures var redacted := RedactLines(Lines(input), key);
            RedactPair(input, key) == SettledText(redacted) && Lines(RedactPair(input, key)) == Settled(redacted)
  {
    var redacted := RedactLines(Lines(input), key);
    LinesAreOneLine(input);
    forall j | 0 <= j < |redacted|
      ensures OneLine(redacted[j])
    {
      RedactKeepsOneLine(Lines(input)[j], key);
    }
    TrimmedUnlines(redacted);
  }

  // One pass on the lines of a text, and the passes for the first `n` keys.
  function PassLines(lines: seq<string>, key: string): seq<string> { Settled(RedactLines(lines, key)) }

  function LinesUpTo(lines: seq<string>, keys: seq<string>, n: nat): seq<string>
    requires n <= |keys|
    decreases n
  {
    if n == 0 then lines else PassLines(LinesUpTo(lines, keys, n - 1), keys[n - 1])
  }

  // One pass more.
  lemma NextLines(lines: seq<string>, keys: seq<string>, n: nat, before: seq<string>)
    requires n < |keys| && before == LinesUpTo(lines, keys, n)
    ensures PassLines(before, keys[n]) == LinesUpTo(lines, keys, n + 1)
  {
  }

  lemma NextText(input: string, keys: seq<string>, n: nat, before: string)
    requires n < |keys| && before == RedactUpTo(input, keys, n)
    ensures RedactPair(before, keys[n]) == RedactUpTo(input, keys, n + 1)
  {
  }

  lemma {:induction false} PassesOnLines(input: string, keys: seq<string>, n: nat)
    requires n <= |keys|
    ensures Lines(RedactUpTo(input, keys, n)) == LinesUpTo(Lines(input), keys, n)
  {
    hide RedactPair, Lines, Settled;
    if n > 0 {
      var before := RedactUpTo(input, keys, n - 1);
      PassesOnLines(input, keys, n - 1);
      PairSettles(before, keys[n - 1]);
      NextText(input, keys, n - 1, before);
      NextLines(Lines(input), keys, n - 1, Lines(before));
    }
  }

  // What the passes leave of the text.
  lemma LastPass(input: string, keys: seq<string>)
    requires keys != []
    ensures var n := |keys| - 1;
            RedactAll(input, keys) == SettledText(RedactLines(LinesUpTo(Lines(input), keys, n), keys[n]))
  {
    var n: nat := |keys| - 1;
    PassesOnLines(input, keys, n);
    PairSettles(RedactUpTo(input, keys, n), keys[n]);
  }

  lemma RedactedAlike(a: seq<string>, b: seq<string>, keys: seq<string>, i: nat)
    requires i < |keys| && AlikeLines(a, b, keys, i)
    ensures AlikeLines(RedactLines(a, keys[i]), RedactLines(b, keys[i]), keys, i + 1)
  {
    forall j | 0 <= j < |a|
      ensures Alike(RedactLine(a[j], keys[i]), RedactLine(b[j], keys[i]), keys, i + 1)
    {
      RedactKeepsAlike(a[j], b[j], keys, i);
    }
  }

  lemma PassKeepsAlike(a: seq<string>, b: seq<string>, keys: seq<string>, i: nat)
    requires i < |keys| && AlikeLines(a, b, keys, i)
    ensures AlikeLines(PassLines(a, keys[i]), PassLines(b, keys[i]), keys, i + 1)
  {
    RedactedAlike(a, b, keys, i);
    SettledAlike(RedactLines(a, keys[i]), RedactLines(b, keys[i]), keys, i + 1);
  }

  lemma {:induction false} PassesKeepAlike(a: seq<string>, b: seq<string>, keys: seq<string>, n: nat)
    returns (a': seq<string>, b': seq<string>)
    requires n <= |keys| && AlikeLines(a, b, keys, 0)
    ensures a' == LinesUpTo(a, keys, n) && b' == LinesUpTo(b, keys, n)
    ensures AlikeLines(a', b', keys, n)
  {
    hide PassLines;
    if n == 0 {
      a', b' := a, b;
    } else {
      a', b' := PassesKeepAlike(a, b, keys, n - 1);
      PassKeepsAlike(a', b', keys, n - 1);
      NextLines(a, keys, n - 1, a');
      NextLines(b, keys, n - 1, b');
      a', b' := PassLines(a', keys[n - 1]), PassLines(b', keys[n - 1]);
    }
  }

  /** The value is never shown: texts whose lines are the same up to and including a marker of any of
      the keys, in any case, come out equal, whatever follows the marker. */
  lemma ValueIndependent(a: string, b: string, keys: seq<string>)
    requires keys != [] && AlikeLines(Lines(a), Lines(b), keys, 0)
    ensures RedactAll(a, keys) == RedactAll(b, keys)
  {
    var n: nat := |keys| - 1;
    var a', b' := PassesKeepAlike(Lines(a), Lines(b), keys, n);
    RedactedAlike(a', b', keys, n);
    assert forall j :: 0 <= j < |a'| ==> Alike(RedactLine(a'[j], keys[n]), RedactLine(b'[j], keys[n]), keys, |keys|);
    assert RedactLines(a', keys[n]) == RedactLines(b', keys[n]);
    LastPass(a, keys);
    LastPass(b, keys);
  }

  // ---------- one line in a text ----------

  // The text up to a line, and the text after it.
  predicate EndsLine(before: string) { before == "" || before[|before| - 1] == '\n' }
  predicate StartsLine(after: string) { after == "" || after[0] == '\n' }

  lemma {:induction false} LinesAfter(before: string, rest: string)
    requires EndsLine(before)
    ensures Lines(before + rest) == Lines(before) + Lines(rest)
    decreases |before|
  {
    if before == "" {
      assert before + rest == rest;
    } else {
      var line, more := FirstLine(before);
      LinesAfter(more, rest);
      LinesAfterFirst(line, more, rest);
    }
  }

  lemma LinesAfterFirst(line: string, more: string, rest: string)
    requires OneLine(line) && Lines(more + rest) == Lines(more) + Lines(rest)
    ensures Lines(line + "\n" + more + rest) == Lines(line + "\n" + more) + Lines(rest)
  {
    hide Lines, StripCr, OneLine;
    LinesCons(line, more);
    LinesCons(line, more + rest);
    Regroup(line + "\n", more, rest);
    Regroup([StripCr(line)], Lines(more), Lines(rest));
  }

  lemma {:induction false} FirstLine(text: string) returns (line: string, more: string)
    requires text != "" && EndsLine(text)
    ensures OneLine(line) && text == line + "\n" + more && EndsLine(more)
  {
    if text[0] == '\n' {
      line, more := "", text[1..];
      assert text == [text[0]] + more;
    } else {
      line, more := FirstLine(text[1..]);
      assert text == [text[0]] + line + "\n" + more;
      line := [text[0]] + line;
    }
  }

  // The lines of a text whose first line is `line`.
  lemma LinesFrom(line: string, after: string)
    requires OneLine(line) && line != "" && StartsLine(after)
    ensures after == "" ==> Lines(line + after) == [line]
    ensures after != "" ==> Lines(line + after) == [StripCr(line)] + Lines(after[1..])
  {
    hide Find, Lines, StripCr;
    if after == "" {
      LastLine(line);
      assert line + after == line;
    } else {
      LinesCons(line, after[1..]);
      assert line + after == line + "\n" + after[1..];
    }
  }

  /** So what stands behind a key, to the end of its line, makes no difference, wherever the line is. */
  lemma SecretMakesNoDifference(
    keys: seq<string>, before: string, head: string, k: nat, secret: string, other: string, after: string)
    requires EndsLine(before) && StartsLine(after)
    requires k < |keys| && |keys[k]| < |head| && MarkerAt(head, keys[k], |head| - |keys[k]| - 1)
    requires OneLine(head) && OneLine(secret) && OneLine(other)
    ensures RedactAll(before + (head + secret + after), keys) == RedactAll(before + (head + other + after), keys)
  {
    hide Lines, StripCr, RedactAll, MarkerAt;
    var (x, y) := (head + secret, head + other);
    HeadMakesAlike(keys, head, k, secret, other);
    EndsKeepAlike(x, y, keys, 0);
    LinesFrom(x, after);
    LinesFrom(y, after);
    LinesAfter(before, x + after);
    LinesAfter(before, y + after);
    ValueIndependent(before + (x + after), before + (y + after), keys);
  }

  lemma HeadMakesAlike(keys: seq<string>, head: string, k: nat, secret: string, other: string)
    requires k < |keys| && |keys[k]| < |head| && MarkerAt(head, keys[k], |head| - |keys[k]| - 1)
    ensures Alike(head + secret, head + other, keys, 0)
  {
    var (x, y, pos) := (head + secret, head + other, |head| - |keys[k]| - 1);
    MarkerIsLocal(head, x, |head|, keys[k], pos);
    assert SameUpTo(x, y, pos + |keys[k]| + 1);
  }
}
