/** What redaction makes of each line: a marked line is cut behind the marker that ends first, whichever key
    it is of, and any other line loses nothing but white space at its end. */
module RedactedLines {
  import opened Strings
  import opened Redaction
  import opened RedactionLaws
  import opened RedactingTwice

  // ---------- where markers end ----------

  // A marker of the key ends before position `e`.
  predicate EndsAt(line: string, key: string, e: nat) {
    e > |key| && MarkerAt(line, key, e - |key| - 1)
  }

  // A marker of one of the first `n` keys does.
  ghost predicate SomeEnd(line: string, keys: seq<string>, n: nat, e: nat) {
    exists k: nat :: k < n && k < |keys| && EndsAt(line, keys[k], e)
  }

  ghost predicate FirstEnd(line: string, keys: seq<string>, n: nat, e: nat) {
    SomeEnd(line, keys, n, e) && forall other: nat :: SomeEnd(line, keys, n, other) ==> e <= other
  }

  ghost predicate Marked(line: string, keys: seq<string>, n: nat) {
    exists e: nat :: SomeEnd(line, keys, n, e)
  }

  /** What is shown of a line for the first `n` keys. */
  ghost predicate Shown(line: string, x: string, keys: seq<string>, n: nat) {
    if Marked(line, keys, n)
    then exists e: nat :: FirstEnd(line, keys, n, e) && e <= |line| && x == line[..e] + "<redacted>"
    else x <= line && IsBlank(line[|x|..])
  }

  /** One pass: a line with a marker comes out as its text to the end of the first one and "<redacted>",
      a line without one as it is. */
  lemma LineIsCut(line: string, key: string)
    ensures NoMarkerBefore(line, key, |line|) ==> RedactLine(line, key) == line
    ensures forall pos: nat :: MarkerAt(line, key, pos) && NoMarkerBefore(line, key, pos) ==>
                                 RedactLine(line, key) == line[..pos + |key| + 1] + "<redacted>"
  {
    FindMarker(line, key);
  }

  // ---------- one more key ----------

  lemma OneMoreKey(line: string, keys: seq<string>, n: nat, e: nat)
    requires n < |keys|
    ensures SomeEnd(line, keys, n + 1, e) <==> SomeEnd(line, keys, n, e) || EndsAt(line, keys[n], e)
  {
  }

  lemma BlankAt(s: string, k: nat)
    requires IsBlank(s) && k < |s|
    ensures IsWhitespace(s[k])
  {
    assert s[k] in s;
  }

  // Nothing was cut before: the markers of the next key are those of the whole line.
  lemma MarkersInVisible(line: string, x: string, key: string, pos: nat)
    requires x <= line && IsBlank(line[|x|..])
    ensures MarkerAt(x, key, pos) <==> MarkerAt(line, key, pos)
  {
    if pos + |key| < |x| {
      MarkerIsLocal(x, line, |x|, key, pos);
    } else if pos + |key| < |line| {
      BlankAt(line[|x|..], pos + |key| - |x|);
    }
  }

  // The first marker of `key` in what is left of the line, if it is in the line, ends first for it.
  lemma CutShown(line: string, x: string, keys: seq<string>, n: nat, pos: nat)
    requires n < |keys| && Shown(line, x, keys, n)
    requires MarkerAt(x, keys[n], pos) && NoMarkerBefore(x, keys[n], pos)
    ensures Shown(line, x[..pos + |keys[n]| + 1] + "<redacted>", keys, n + 1)
  {
    var (key, end) := (keys[n], pos + |keys[n]| + 1);
    forall e: nat
      ensures SomeEnd(line, keys, n + 1, e) <==> SomeEnd(line, keys, n, e) || EndsAt(line, key, e)
    {
      OneMoreKey(line, keys, n, e);
    }
    if Marked(line, keys, n) {
      var e: nat :| FirstEnd(line, keys, n, e) && e <= |line| && x == line[..e] + "<redacted>";
      forall p: nat
        ensures MarkerAt(x, key, p) <==> p + |key| < e && MarkerAt(line, key, p)
      {
        MarkersInRedacted(line, e, key, p);
      }
      assert x[..end] == line[..end];
    } else {
      forall p: nat
        ensures MarkerAt(x, key, p) <==> MarkerAt(line, key, p)
      {
        MarkersInVisible(line, x, key, p);
      }
      assert x[..end] == line[..end];
    }
    assert EndsAt(line, key, end);
    EndIsFirst(line, x, keys, n, pos);
  }

  lemma EndIsFirst(line: string, x: string, keys: seq<string>, n: nat, pos: nat)
    requires n < |keys| && Shown(line, x, keys, n)
    requires MarkerAt(x, keys[n], pos) && NoMarkerBefore(x, keys[n], pos)
    requires EndsAt(line, keys[n], pos + |keys[n]| + 1)
    ensures FirstEnd(line, keys, n + 1, pos + |keys[n]| + 1)
  {
    var (key, end, m) := (keys[n], pos + |keys[n]| + 1, n + 1);
    OneMoreKey(line, keys, n, end);
    forall other: nat | SomeEnd(line, keys, m, other)
      ensures end <= other
    {
      OneMoreKey(line, keys, n, other);
      if Marked(line, keys, n) {
        var e: nat :| FirstEnd(line, keys, n, e) && e <= |line| && x == line[..e] + "<redacted>";
        MarkersInRedacted(line, e, key, pos);
        if EndsAt(line, key, other) {
          MarkersInRedacted(line, e, key, other - |key| - 1);
        }
      } else if EndsAt(line, key, other) {
        MarkersInVisible(line, x, key, other - |key| - 1);
      }
    }
  }

  // Without a marker of the next key what is shown stays.
  lemma KeptShown(line: string, x: string, keys: seq<string>, n: nat)
    requires n < |keys| && Shown(line, x, keys, n) && NoMarkerBefore(x, keys[n], |x|)
    ensures Shown(line, x, keys, n + 1)
  {
    var (key, m) := (keys[n], n + 1);
    forall other: nat
      ensures SomeEnd(line, keys, m, other) <==> SomeEnd(line, keys, n, other) || EndsAt(line, key, other)
    {
      OneMoreKey(line, keys, n, other);
    }
    forall p: nat
      ensures !MarkerAt(x, key, p)
    {
      assert p < |x| ==> !MarkerAt(x, key, p);
    }
    if Marked(line, keys, n) {
      var e: nat :| FirstEnd(line, keys, n, e) && e <= |line| && x == line[..e] + "<redacted>";
      forall other: nat | EndsAt(line, key, other)
        ensures e <= other
      {
        MarkersInRedacted(line, e, key, other - |key| - 1);
      }
      assert FirstEnd(line, keys, m, e);
    } else {
      forall other: nat
        ensures !EndsAt(line, key, other)
      {
        if EndsAt(line, key, other) {
          MarkersInVisible(line, x, key, other - |key| - 1);
        }
      }
    }
  }

  lemma RedactShown(line: string, x: string, keys: seq<string>, n: nat)
    requires n < |keys| && Shown(line, x, keys, n)
    ensures Shown(line, RedactLine(x, keys[n]), keys, n + 1)
  {
    hide RedactLine, Find, AsciiUpper, Shown, MarkerAt, NoMarkerBefore;
    FindMarker(x, keys[n]);
    LineIsCut(x, keys[n]);
    match Find(AsciiUpper(x), Marker(keys[n]))
    case None => KeptShown(line, x, keys, n);
    case Some(pos) => CutShown(line, x, keys, n, pos);
  }

  // ---------- the ends of lines ----------

  // A prefix without what is blank at the end.
  lemma EndShown(line: string, x: string, z: string, keys: seq<string>, n: nat)
    requires Shown(line, x, keys, n) && (z == StripCr(x) || z == TrimEnd(x))
    ensures Shown(line, z, keys, n)
  {
    if Marked(line, keys, n) {
      assert x[|x| - 1] == "<redacted>"[9] == '>';
    } else {
      assert forall k :: |z| <= k < |x| ==> IsWhitespace(x[k]);
      forall c | c in line[|z|..]
        ensures IsWhitespace(c)
      {
        var k :| 0 <= k < |line[|z|..]| && line[|z|..][k] == c;
        assert |z| + k >= |x| ==> line[|x|..][|z| + k - |x|] == c;
      }
    }
  }

  // Nothing but blank lines are shown blank.
  lemma BlankShown(line: string, x: string, keys: seq<string>, n: nat)
    requires Shown(line, x, keys, n) && IsBlank(x)
    ensures IsBlank(line)
  {
    if x != "" {
      BlankAt(x, |x| - 1);
    }
    if !Marked(line, keys, n) {
      assert line == x + line[|x|..];
    }
  }

  // ---------- all lines, all keys ----------

  ghost predicate AllShown(lines: seq<string>, after: seq<string>, keys: seq<string>, n: nat) {
    && |after| <= |lines|
    && (forall j :: 0 <= j < |after| ==> Shown(lines[j], after[j], keys, n))
    && (forall j :: |after| <= j < |lines| ==> IsBlank(lines[j]))
  }

  lemma UncutShown(line: string, keys: seq<string>)
    ensures Shown(line, line, keys, 0)
  {
  }

  lemma PassShows(lines: seq<string>, before: seq<string>, keys: seq<string>, n: nat)
    requires n < |keys| && AllShown(lines, before, keys, n)
    ensures AllShown(lines, PassLines(before, keys[n]), keys, n + 1)
  {
    hide Shown, RedactLine, Settled, StripCr, TrimEnd, IsBlank;
    var redacted := RedactLines(before, keys[n]);
    var after := Settled(redacted);
    SettledShape(redacted);
    forall j | 0 <= j < |before|
      ensures Shown(lines[j], redacted[j], keys, n + 1)
    {
      RedactShown(lines[j], before[j], keys, n);
    }
    forall j | 0 <= j < |after|
      ensures Shown(lines[j], after[j], keys, n + 1)
    {
      EndShown(lines[j], redacted[j], after[j], keys, n + 1);
    }
    forall j | |after| <= j < |lines|
      ensures IsBlank(lines[j])
    {
      if j < |before| {
        BlankShown(lines[j], redacted[j], keys, n + 1);
      }
    }
  }

  lemma {:induction false} PassesShow(lines: seq<string>, keys: seq<string>, n: nat) returns (after: seq<string>)
    requires n <= |keys|
    ensures after == LinesUpTo(lines, keys, n) && AllShown(lines, after, keys, n)
  {
    hide Shown, PassLines;
    if n == 0 {
      after := lines;
      forall j | 0 <= j < |lines|
        ensures Shown(lines[j], after[j], keys, 0)
      {
        UncutShown(lines[j], keys);
      }
    } else {
      after := PassesShow(lines, keys, n - 1);
      PassShows(lines, after, keys, n - 1);
      NextLines(lines, keys, n - 1, after);
      after := PassLines(after, keys[n - 1]);
    }
  }

  /** Every line of every text, for any keys: one with a marker comes out in the same place, cut behind the
      marker that ends first; the others come out but for white space at their ends; only blank lines at
      the end of the text are missing. */
  lemma RedactsEveryLine(input: string, keys: seq<string>)
    ensures AllShown(Lines(input), Lines(RedactAll(input, keys)), keys, |keys|)
  {
    hide AllShown, Lines, LinesUpTo, RedactUpTo;
    var after := PassesShow(Lines(input), keys, |keys|);
    PassesOnLines(input, keys, |keys|);
  }

  // ---------- the five keys ----------

  lemma KeysListed()
    ensures KEYS == ["DISCORD_TOKEN", "OO_PSEUDO_ID_HMAC_KEY", "TOKEN", "SECRET", "PASSWORD"]
  {
  }

  /** `redact_sensitive` does so for its five keys. */
  lemma SensitiveLines(input: string)
    ensures AllShown(Lines(input), Lines(RedactSensitive(input)),
                     ["DISCORD_TOKEN", "OO_PSEUDO_ID_HMAC_KEY", "TOKEN", "SECRET", "PASSWORD"], 5)
  {
    hide AllShown;
    KeysListed();
    RedactsEveryLine(input, KEYS);
  }

  /** And what stands behind one of the five keys, in any case, makes no difference to what it shows. */
  lemma SensitiveMakesNoDifference(
    before: string, head: string, key: string, secret: string, other: string, after: string)
    requires EndsLine(before) && StartsLine(after)
    requires key in ["DISCORD_TOKEN", "OO_PSEUDO_ID_HMAC_KEY", "TOKEN", "SECRET", "PASSWORD"]
    requires |key| < |head| && MarkerAt(head, key, |head| - |key| - 1)
    requires OneLine(head) && OneLine(secret) && OneLine(other)
    ensures RedactSensitive(before + (head + secret + after)) == RedactSensitive(before + (head + other + after))
  {
    hide MarkerAt, RedactAll;
    KeysListed();
    var k: nat :| k < |KEYS| && KEYS[k] == key;
    SecretMakesNoDifference(KEYS, before, head, k, secret, other, after);
  }
}
