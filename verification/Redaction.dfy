/** src/security/diagnostics.rs: taking secrets out of text before it is shown. Positions are character
    positions; upper-casing ASCII letters moves none. */
module Redaction {
  import opened Strings

  const KEYS := ["DISCORD_TOKEN", "OO_PSEUDO_ID_HMAC_KEY", "TOKEN", "SECRET", "PASSWORD"]
  const REDACTED := "<redacted>"

  function StripCr(line: string): string {
    if line != "" && line[|line| - 1] == '\r' then line[..|line| - 1] else line
  }

  /** `str::lines`: a line loses its newline and one carriage return before it. */
  function Lines(s: string): seq<string>
    decreases |s|
  {
    if s == "" then []
    else
      match Find(s, "\n")
      case None => [s]
      case Some(k) => [StripCr(s[..k])] + Lines(s[k + 1..])
  }

  function Unlines(lines: seq<string>): string {
    if lines == [] then "" else Unlines(lines[..|lines| - 1]) + lines[|lines| - 1] + "\n"
  }

  function Marker(key: string): string { key + "=" }

  function RedactLine(line: string, key: string): string {
    match Find(AsciiUpper(line), Marker(key))
    case None => line
    case Some(pos) => line[..pos + |key| + 1] + REDACTED
  }

  function RedactLines(lines: seq<string>, key: string): (r: seq<string>)
    ensures |r| == |lines| && forall i :: 0 <= i < |lines| ==> r[i] == RedactLine(lines[i], key)
  {
    seq(|lines|, i requires 0 <= i < |lines| => RedactLine(lines[i], key))
  }

  /** `redact_key_value_pair`. */
  function RedactPair(input: string, key: string): string {
    TrimEnd(Unlines(RedactLines(Lines(input), key)))
  }

  // After the first `n` keys.
  function RedactUpTo(input: string, keys: seq<string>, n: nat): string
    requires n <= |keys|
    decreases n
  {
    if n == 0 then input else RedactPair(RedactUpTo(input, keys, n - 1), keys[n - 1])
  }

  function RedactAll(input: string, keys: seq<string>): string { RedactUpTo(input, keys, |keys|) }

  /** `redact_sensitive`. */
  function RedactSensitive(input: string): string { RedactAll(input, KEYS) }

  method AppendRedacted(before: string, line: string, key: string) returns (output: string)
    ensures output == before + RedactLine(line, key)
  {
    output := before;
    var upper := AsciiUpper(line);
    var pos := Find(upper, key + "=");
    if pos.Some? {
      var end := pos.value + |key| + 1;
      output := output + line[..end];
      output := output + REDACTED;
    } else {
      output := output + line;
    }
  }

  method RedactKeyValuePair(input: string, key: string) returns (output: string)
    ensures output == RedactPair(input, key)
  {
    hide RedactLine, Lines, TrimEnd;
    output := "";
    var lines := Lines(input);
    ghost var redacted := RedactLines(lines, key);
    for next := 0 to |lines|
      invariant output == Unlines(redacted[..next])
    {
      output := AppendRedacted(output, lines[next], key);
      assert redacted[..next + 1][..next] == redacted[..next];
      output := output + "\n";
    }
    assert redacted[..|lines|] == redacted;
    output := TrimEnd(output);
  }

  method RedactKeys(input: string, keys: seq<string>) returns (output: string)
    ensures output == RedactAll(input, keys)
  {
    output := input;
    for next := 0 to |keys|
      invariant output == RedactUpTo(input, keys, next)
    {
      output := RedactKeyValuePair(output, keys[next]);
    }
  }

  method Redact(input: string) returns (output: string)
    ensures output == RedactSensitive(input)
  {
    output := RedactKeys(input, KEYS);
  }

  // ---------- lines ----------

  predicate OneLine(line: string) { '\n' !in line }

  ghost predicate AllOneLine(lines: seq<string>) {
    forall i :: 0 <= i < |lines| ==> OneLine(lines[i])
  }

  lemma {:induction false} FirstNewline(line: string, rest: string)
    requires OneLine(line)
    ensures Find(line + "\n" + rest, "\n") == Some(|line|)
  {
    var s := line + "\n" + rest;
    if line == "" {
      assert s[0] == '\n';
    } else {
      assert s[0] == line[0] && line[0] in line;
      assert s[1..] == line[1..] + "\n" + rest;
      FirstNewline(line[1..], rest);
    }
  }

  lemma {:induction false} NoNewline(line: string)
    requires OneLine(line)
    ensures Find(line, "\n") == None
  {
    if line != "" {
      assert line[0] in line;
      NoNewline(line[1..]);
    }
  }

  lemma LinesCons(line: string, rest: string)
    requires OneLine(line)
    ensures Lines(line + "\n" + rest) == [StripCr(line)] + Lines(rest)
  {
    var s := line + "\n" + rest;
    FirstNewline(line, rest);
    assert s[..|line|] == line && s[|line| + 1..] == rest;
  }

  lemma {:induction false} LinesAreOneLine(s: string)
    ensures AllOneLine(Lines(s))
    decreases |s|
  {
    if s != "" {
      FindIsFirst(s, "\n");
      match Find(s, "\n")
      case None =>
        forall i | 0 <= i < |s|
          ensures s[i] != '\n'
        {
          assert s[i..][0] == s[i];
        }
      case Some(k) =>
        forall i | 0 <= i < k
          ensures s[i] != '\n'
        {
          assert s[i..][0] == s[i];
        }
        LinesAreOneLine(s[k + 1..]);
    }
  }

  lemma {:induction false} UnlinesCons(line: string, rest: seq<string>)
    ensures Unlines([line] + rest) == line + "\n" + Unlines(rest)
  {
    if rest == [] {
      assert ([line] + rest)[..0] == [];
    } else {
      var n := |rest| - 1;
      assert ([line] + rest)[..n + 1] == [line] + rest[..n];
      UnlinesCons(line, rest[..n]);
    }
  }

  function StripAll(lines: seq<string>): (r: seq<string>)
    ensures |r| == |lines| && forall i :: 0 <= i < |lines| ==> r[i] == StripCr(lines[i])
  {
    seq(|lines|, i requires 0 <= i < |lines| => StripCr(lines[i]))
  }

  lemma LastLine(last: string)
    requires OneLine(last) && last != ""
    ensures Lines(last) == [last]
  {
    NoNewline(last);
  }

  lemma {:induction false} LinesOfUnlines(lines: seq<string>, last: string)
    requires AllOneLine(lines) && OneLine(last) && last != ""
    ensures Lines(Unlines(lines) + last) == StripAll(lines) + [last]
    decreases |lines|
  {
    hide Find, Lines, StripCr;
    if lines == [] {
      LastLine(last);
      assert Unlines(lines) + last == last;
      assert StripAll(lines) == [];
    } else {
      hide Unlines, StripAll;
      LinesOfUnlines(lines[1..], last);
      UnlinesThenLast(lines, last);
      LinesCons(lines[0], Unlines(lines[1..]) + last);
      StripAllCons(lines);
      Regroup([StripCr(lines[0])], StripAll(lines[1..]), [last]);
    }
  }

  lemma StripAllCons(lines: seq<string>)
    requires lines != []
    ensures StripAll(lines) == [StripCr(lines[0])] + StripAll(lines[1..])
  {
    hide StripCr;
  }

  lemma Regroup<T>(a: seq<T>, b: seq<T>, c: seq<T>)
    ensures a + b + c == a + (b + c)
  {
  }

  lemma UnlinesThenLast(lines: seq<string>, last: string)
    requires lines != []
    ensures Unlines(lines) + last == lines[0] + "\n" + (Unlines(lines[1..]) + last)
  {
    hide Unlines;
    UnlinesCons(lines[0], lines[1..]);
    assert [lines[0]] + lines[1..] == lines;
  }

  // ---------- trimming ----------

  lemma {:induction false} TrimBlankEnd(s: string, blank: string)
    requires IsBlank(blank)
    ensures TrimEnd(s + blank) == TrimEnd(s)
  {
    if blank != "" {
      var n := |blank| - 1;
      assert blank[n] in blank;
      assert (s + blank)[..|s| + n] == s + blank[..n];
      TrimBlankEnd(s, blank[..n]);
    } else {
      assert s + blank == s;
    }
  }

  lemma TrimStep(s: string)
    requires s != ""
    ensures TrimEnd(s) == if IsWhitespace(s[|s| - 1]) then TrimEnd(s[..|s| - 1]) else s
  {
  }

  lemma VisibleInit(t: string)
    requires !IsBlank(t) && (t != "" ==> IsWhitespace(t[|t| - 1]))
    ensures t != "" && !IsBlank(t[..|t| - 1])
  {
    assert t != "" ==> t == t[..|t| - 1] + [t[|t| - 1]];
  }

  lemma {:induction false} TrimVisibleEnd(s: string, t: string)
    requires !IsBlank(t)
    ensures TrimEnd(s + t) == s + TrimEnd(t) && TrimEnd(t) != ""
    decreases |t|
  {
    hide TrimEnd, IsWhitespace;
    assert t != "";
    var n := |t| - 1;
    TrimStep(t);
    TrimStep(s + t);
    if IsWhitespace(t[n]) {
      hide IsBlank;
      VisibleInit(t);
      assert (s + t)[..|s| + n] == s + t[..n];
      TrimVisibleEnd(s, t[..n]);
    }
  }

  /** The lines of a trimmed text: trailing blank lines go, the last visible one is trimmed, and the
      others lose a carriage return. */
  function Settled(lines: seq<string>): seq<string> {
    if lines == [] then []
    else
      var (before, last) := (lines[..|lines| - 1], lines[|lines| - 1]);
      if IsBlank(last) then Settled(before) else StripAll(before) + [TrimEnd(last)]
  }

  // What is left of the text itself.
  function SettledText(lines: seq<string>): string {
    if lines == [] then ""
    else
      var (before, last) := (lines[..|lines| - 1], lines[|lines| - 1]);
      if IsBlank(last) then SettledText(before) else Unlines(before) + TrimEnd(last)
  }

  lemma {:induction false} TrimmedUnlines(lines: seq<string>)
    requires AllOneLine(lines)
    ensures TrimEnd(Unlines(lines)) == SettledText(lines) && Lines(SettledText(lines)) == Settled(lines)
  {
    if lines != [] {
      var (before, last) := (lines[..|lines| - 1], lines[|lines| - 1]);
      assert Unlines(lines) == Unlines(before) + last + "\n";
      TrimBlankEnd(Unlines(before) + last, "\n");
      if IsBlank(last) {
        TrimBlankEnd(Unlines(before), last);
        TrimmedUnlines(before);
      } else {
        TrimVisibleEnd(Unlines(before), last);
        LinesOfUnlines(before, TrimEnd(last));
      }
    }
  }
}
