/** When the five successive replacements differ from one simultaneous substitution, and when they
    cannot: a closing brace in the template's literal text can complete a placeholder that values began. */
module SubstitutionLaws {
  import opened Strings
  import opened Template
  import opened Rendering
  import opened SanitisingLaws
  import opened Bot

  // ---------- templates without closing braces ----------

  predicate NoClose(s: string) { '}' !in s }

  /** No literal text and no value contains a closing brace. */
  ghost predicate ClosesNothing(segments: seq<Segment>, values: seq<string>)
    requires |values| == 5
  {
    && (forall s :: s in segments && s.Text? ==> NoClose(s.text))
    && (forall k :: 0 <= k < 5 ==> NoClose(values[k]))
  }

  /** Every closing brace has a dollar sign before it. */
  ghost predicate Guarded(s: string) {
    forall q :: 0 <= q < |s| && s[q] == '}' ==> exists p :: 0 <= p < q && s[p] == '$'
  }

  // A placeholder: a dollar sign, none after it, and a closing brace at the end.
  predicate IsMark(needle: string) {
    && |needle| >= 2 && needle[0] == '$' && needle[1] == '{' && needle[|needle| - 1] == '}'
    && forall i :: 1 <= i < |needle| ==> needle[i] != '$'
  }

  lemma PlaceholderIsMark(key: KeyIndex)
    ensures IsMark(Placeholder(key))
  {
    NoSecondDollar(key);
  }

  lemma GuardedPrepend(x: string, t: string)
    requires NoClose(x) && Guarded(t)
    ensures Guarded(x + t)
  {
    var s := x + t;
    assert forall k :: 0 <= k < |x| ==> s[k] == x[k] && x[k] in x;
    forall q | 0 <= q < |s| && s[q] == '}'
      ensures exists p :: 0 <= p < q && s[p] == '$'
    {
      var p :| 0 <= p < q - |x| && t[p] == '$';
      assert s[|x| + p] == '$';
    }
  }

  lemma GuardedAfterMark(mark: string, t: string)
    requires IsMark(mark)
    ensures Guarded(mark + t)
  {
    assert (mark + t)[0] == '$' && (mark + t)[1] == '{';
  }

  lemma {:induction false} FillIsGuarded(segments: seq<Segment>, done: nat, values: seq<string>)
    requires |values| == 5 && ClosesNothing(segments, values)
    ensures Guarded(Fill(segments, done, values))
  {
    if segments != [] {
      var (head, tail) := (segments[0], segments[1..]);
      var rest := Fill(tail, done, values);
      FillIsGuarded(tail, done, values);
      if head.Hole? && head.key >= done {
        PlaceholderIsMark(head.key);
        GuardedAfterMark(Placeholder(head.key), rest);
      } else {
        assert head in segments;
        GuardedPrepend(Piece(head, done, values), rest);
      }
    }
  }

  // No mark begins in `x`: it would reach over the dollar sign that guards its closing brace.
  lemma NoMarkBegins(x: string, t: string, needle: string)
    requires IsMark(needle) && x != "" && NoClose(x) && Guarded(t)
    ensures !(needle <= x + t)
  {
    var (s, last) := (x + t, |needle| - 1);
    assert forall k :: 0 <= k < |x| ==> s[k] == x[k] && x[k] in x;
    if last < |s| && s[last] == '}' {
      assert t[last - |x|] == '}';
      var p :| 0 <= p < last - |x| && t[p] == '$';
      assert s[|x| + p] == '$' != needle[|x| + p];
    }
  }

  lemma {:induction false} ReplaceSkipsGuarded(x: string, t: string, needle: string, value: string)
    requires IsMark(needle) && NoClose(x) && Guarded(t)
    ensures Replace(x + t, needle, value) == x + Replace(t, needle, value)
    decreases |x|
  {
    hide Replace, Guarded, IsMark;
    if x == "" {
      assert x + t == t;
    } else {
      var s := x + t;
      NoMarkBegins(x, t, needle);
      MarkIsNotEmpty(needle);
      ReplaceSteps(s, needle, value);
      assert s[1..] == x[1..] + t;
      assert x == [x[0]] + x[1..];
      ReplaceSkipsGuarded(x[1..], t, needle, value);
      assert [x[0]] + (x[1..] + Replace(t, needle, value)) == x + Replace(t, needle, value);
    }
  }

  lemma MarkIsNotEmpty(needle: string)
    requires IsMark(needle)
    ensures needle != []
  {
  }

  lemma {:induction false} ReplaceFillsExactly(segments: seq<Segment>, key: KeyIndex, values: seq<string>)
    requires |values| == 5 && ClosesNothing(segments, values)
    ensures Replace(Fill(segments, key, values), Placeholder(key), values[key]) == Fill(segments, key + 1, values)
  {
    hide Placeholder, Guarded;
    if segments != [] {
      var (head, tail) := (segments[0], segments[1..]);
      var rest := Fill(tail, key, values);
      assert head in segments;
      PlaceholderIsMark(key);
      ReplaceFillsExactly(tail, key, values);
      if head == Hole(key) {
        ReplaceHits(rest, Placeholder(key), values[key]);
      } else if head.Hole? && head.key > key {
        PlaceholdersDiffer(key, head.key, rest);
        PlaceholderIsMark(head.key);
        ReplacePassesOther(Placeholder(head.key), rest, Placeholder(key), values[key]);
      } else {
        FillIsGuarded(tail, key, values);
        ReplaceSkipsGuarded(Piece(head, key, values), rest, Placeholder(key), values[key]);
      }
    }
  }

  lemma {:induction false} ReplacedIsFillExactly(template: string, segments: seq<Segment>, values: seq<string>, n: nat)
    requires |values| == 5 && n <= 5 && Parse(template) == Parsed(segments) && ClosesNothing(segments, values)
    ensures Replaced(template, values, n) == Fill(segments, n, values)
  {
    hide Fill, Parse, ClosesNothing;
    if n == 0 {
      ParseSpellsTemplate(template, values);
    } else {
      ReplacedIsFillExactly(template, segments, values, n - 1);
      ReplaceFillsExactly(segments, n - 1, values);
    }
  }

  /** If neither the template's literal text nor a value contains a closing brace, the replacements are
      the simultaneous substitution, refused exactly when it contains an opening mark. */
  lemma SubstituteExactly(template: string, segments: seq<Segment>, values: seq<string>)
    requires |values| == 5 && Parse(template) == Parsed(segments) && ClosesNothing(segments, values)
    ensures Substitute(template, values) ==
            if Contains(Simultaneous(segments, values), "${") then None else Some(Simultaneous(segments, values))
  {
    hide Parse, Contains, Fill, ClosesNothing;
    ReplacedIsFillExactly(template, segments, values, 5);
  }

  // ---------- sanitised values ----------

  lemma {:induction false} RemovalRemoves(s: string)
    ensures NoClose(Replace(s, "}", ""))
    decreases |s|
  {
    if s != "" {
      var rest := s[1..];
      RemovalRemoves(rest);
      assert s == [s[0]] + rest;
      if s[0] == '}' {
        ReplaceHits(rest, "}", "");
        assert s == "}" + rest;
      } else {
        ReplaceSteps(s, "}", "");
      }
    }
  }

  lemma SanitisedClosesNothing(value: string)
    ensures NoClose(Sanitise(value))
  {
    RemovalRemoves(Replace(value, "${", ""));
  }

  /** The parsed template's literal text contains no closing brace. */
  ghost predicate ClosesOnlyHoles(segments: seq<Segment>) {
    forall s :: s in segments && s.Text? ==> NoClose(s.text)
  }

  /** Rendering such a template: refused exactly when the simultaneous substitution of the sanitised
      values contains an opening mark, and otherwise that text, or the repeated stamp if it is the stamp. */
  lemma RenderExactly(
    template: string, segments: seq<Segment>, count: nat, stamp: string, backend: string, reading: string)
    requires Parse(template) == Parsed(segments) && ClosesOnlyHoles(segments)
    ensures var out := Simultaneous(segments, Values(count, stamp, backend, reading));
            Render(template, count, stamp, backend, reading) ==
            if Contains(out, "${") then None else Some(if out == stamp then Join(stamp, count) else out)
  {
    hide Sanitise, Parse, Contains, Fill, NoClose, Join, Substitute, Simultaneous;
    var values := Values(count, stamp, backend, reading);
    SanitisedClosesNothing(Decimal(count));
    SanitisedClosesNothing(stamp);
    SanitisedClosesNothing(backend);
    SanitisedClosesNothing(reading);
    SanitisedClosesNothing("send_message");
    SubstituteExactly(template, segments, values);
  }

  /** So under a validated configuration with such a template a stamped proposal renders if and only if
      its simultaneous substitution contains no opening mark. */
  lemma ValidatedRendersExactly(bot: BotConfig, count: nat, backend: string, reading: string)
    requires bot.Validated() && ClosesOnlyHoles(Parse(bot.sendTemplate).segments)
    ensures Render(bot.sendTemplate, count, bot.stampText, backend, reading).Some? <==>
            !Contains(Simultaneous(Parse(bot.sendTemplate).segments, Values(count, bot.stampText, backend, reading)), "${")
  {
    hide Render, Parse, Contains, Simultaneous, Values;
    RenderExactly(bot.sendTemplate, Parse(bot.sendTemplate).segments, count, bot.stampText, backend, reading);
  }

  // ---------- a template with a closing brace in its text ----------

  // A literal text that ends like a placeholder, and the stamp's placeholder in front of it.
  const TAIL := "{matched_reading}"
  const JOINING: string := Placeholder(1) + TAIL

  lemma TailJoins()
    ensures '$' !in TAIL && "$" + TAIL == Placeholder(3)
  {
  }

  lemma {:induction false} FindsFirstBrace(name: string, rest: string)
    requires '}' !in name
    ensures Find(name + "}" + rest, "}") == Some(|name|)
  {
    var s := name + "}" + rest;
    if name == "" {
      assert s[0] == '}';
    } else {
      assert s[1..] == name[1..] + "}" + rest;
      assert s[0] == name[0] && name[0] in name;
      FindsFirstBrace(name[1..], rest);
    }
  }

  lemma TailParses()
    ensures Parse(TAIL) == Parsed([Text(TAIL)])
  {
    hide Find;
    TailJoins();
    NoDollarNoOpen(TAIL);
  }

  lemma JoiningHole()
    ensures NextHole(JOINING) == Next(0, 1, 8)
  {
    var rest := KEYS[1] + "}" + TAIL;
    assert JOINING == "${" + rest;
    assert Find(JOINING, "${") == Some(0);
    assert JOINING[2..] == rest;
    FindsFirstBrace(KEYS[1], TAIL);
    assert rest[..5] == KEYS[1];
  }

  /** Validation accepts this template. */
  lemma JoiningParses()
    ensures Parse(JOINING) == Parsed([Text(""), Hole(1), Text(TAIL)]) && Refusal(JOINING) == None
  {
    hide NextHole, Find;
    JoiningHole();
    TailParses();
    assert JOINING[8..] == TAIL && JOINING[..0] == "";
  }

  lemma SkipPlaceholder(key: KeyIndex, other: KeyIndex, rest: string, value: string)
    requires key != other && '$' !in rest
    ensures Replace(Placeholder(other) + rest, Placeholder(key), value) == Placeholder(other) + rest
  {
    hide Replace, Placeholder;
    PlaceholderIsMark(key);
    PlaceholderIsMark(other);
    PlaceholdersDiffer(key, other, rest);
    ReplacePassesOther(Placeholder(other), rest, Placeholder(key), value);
    NothingToReplace(rest, Placeholder(key), value);
  }

  lemma HitPlaceholder(key: KeyIndex, rest: string, value: string)
    requires '$' !in rest
    ensures Replace(Placeholder(key) + rest, Placeholder(key), value) == value + rest
  {
    hide Replace, Placeholder;
    PlaceholderIsMark(key);
    ReplaceHits(rest, Placeholder(key), value);
    NothingToReplace(rest, Placeholder(key), value);
  }

  // The stamp "$" and the literal text join to a placeholder that a later replacement fills.
  lemma LaterReplacementFills(values: seq<string>)
    requires |values| == 5 && values[1] == "$" && '$' !in values[3]
    ensures Substitute(JOINING, values) == Some(values[3])
  {
    hide Replace, Placeholder, Contains;
    TailJoins();
    SkipPlaceholder(0, 1, TAIL, values[0]);
    assert Replaced(JOINING, values, 1) == JOINING;
    HitPlaceholder(1, TAIL, values[1]);
    assert Replaced(JOINING, values, 2) == Placeholder(3);
    assert Placeholder(3) + "" == Placeholder(3);
    SkipPlaceholder(2, 3, "", values[2]);
    assert Replaced(JOINING, values, 3) == Placeholder(3);
    HitPlaceholder(3, "", values[3]);
    assert values[3] + "" == values[3];
    assert Replaced(JOINING, values, 4) == values[3];
    PlaceholderIsMark(4);
    NothingToReplace(values[3], Placeholder(4), values[4]);
    NoDollarNoOpen(values[3]);
  }

  lemma NoDollarNoOpen(s: string)
    requires '$' !in s
    ensures !Contains(s, "${")
  {
    NoOpenIff(s);
    forall i | 0 <= i < |s|
      ensures s[i] != '$'
    {
      assert s[i] in s;
    }
  }

  lemma DollarIsLeftAlone()
    ensures Sanitise("$") == "$"
  {
    LeftAloneExactly("$");
  }

  /** With this template, which validation accepts, and the stamp "$" the simultaneous substitution
      contains an opening mark, and yet rendering is not refused: the reading alone comes out. */
  lemma JoinedMarkCanBeFilled(count: nat, backend: string, reading: string)
    requires '$' !in Sanitise(reading)
    ensures Refusal(JOINING) == None
    ensures Contains(Simultaneous(Parse(JOINING).segments, Values(count, "$", backend, reading)), "${")
    ensures Render(JOINING, count, "$", backend, reading) == Some(Sanitise(reading))
  {
    hide Sanitise, Parse, Contains, Replaced, Placeholder;
    var values := Values(count, "$", backend, reading);
    DollarIsLeftAlone();
    JoiningParses();
    LaterReplacementFills(values);
    SubstituteIsSimultaneous(JOINING, Parse(JOINING).segments, values);
    JoinedText(values);
  }

  lemma JoinedText(values: seq<string>)
    requires |values| == 5 && values[1] == "$"
    ensures Simultaneous([Text(""), Hole(1), Text(TAIL)], values) == "$" + TAIL
    ensures Contains("$" + TAIL, "${")
  {
    var segments := [Text(""), Hole(1), Text(TAIL)];
    FillText(TAIL, 5, values);
    assert segments[1..] == [Hole(1), Text(TAIL)] && segments[1..][1..] == [Text(TAIL)];
    assert Fill(segments[1..], 5, values) == "$" + TAIL;
    assert "" + ("$" + TAIL) == "$" + TAIL;
    NoOpenIff("$" + TAIL);
    assert ("$" + TAIL)[0] == '$' && ("$" + TAIL)[1] == '{';
  }
}
