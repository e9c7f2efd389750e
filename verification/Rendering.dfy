/** Rendering the send template: sanitised values, the five replacements and stamp repetition.
    src/security/response_compiler.rs and src/app/analyze_message.rs hold the same code twice. */
module Rendering {
  import opened Strings
  import opened Template

  // ---------- values ----------

  function KeepPrintable(s: string): (r: string)
    ensures |r| <= |s|
    ensures forall c :: c in r ==> c in s
  {
    if s == [] then []
    else
      var c := s[0];
      (if !IsControl(c) || c == '\n' || c == '\t' then [c] else []) + KeepPrintable(s[1..])
  }

  /** `sanitize_template_value`. */
  function Sanitise(value: string): string {
    KeepPrintable(Replace(Replace(value, "${", ""), "}", ""))
  }

  lemma {:induction false} RemovalShrinks(s: string, needle: string)
    requires needle != []
    ensures |Replace(s, needle, "")| <= |s|
    ensures Contains(s, needle) ==> |Replace(s, needle, "")| < |s|
    decreases |s|
  {
    if |s| < |needle| {
    } else if needle <= s {
      RemovalShrinks(s[|needle|..], needle);
    } else {
      RemovalShrinks(s[1..], needle);
    }
  }

  /** A value that sanitising leaves alone holds no opening mark. */
  lemma SanitisedFixpoint(value: string)
    requires Sanitise(value) == value
    ensures !Contains(value, "${")
  {
    RemovalShrinks(value, "${");
    RemovalShrinks(Replace(value, "${", ""), "}");
  }

  /** Sanitising does not make values inert: removing one mark can put another together. */
  lemma SanitisingCanLeaveAnOpening()
    ensures Sanitise("$${{") == "${" && Contains(Sanitise("$${{"), "${")
  {
    assert "$${{"[1..] == "${{" && "${{"[2..] == "{" && "{"[1..] == "";
    assert Replace("${{", "${", "") == "" + Replace("{", "${", "");
    assert Replace("$${{", "${", "") == ['$'] + "{";
    assert "${"[1..] == "{";
    assert Replace("{", "}", "") == "{" && Replace("${", "}", "") == "${";
    assert KeepPrintable("{") == "{" && KeepPrintable("${") == "${";
  }

  lemma {:induction false} NothingToReplace(s: string, needle: string, value: string)
    requires needle != [] && needle[0] !in s
    ensures Replace(s, needle, value) == s
    decreases |s|
  {
    if |s| >= |needle| {
      assert s[0] in s;
      NothingToReplace(s[1..], needle, value);
    }
  }

  lemma {:induction false} NothingToDrop(s: string)
    requires forall c :: c in s ==> !IsControl(c)
    ensures KeepPrintable(s) == s
  {
    if s != [] {
      assert s[0] in s;
      NothingToDrop(s[1..]);
    }
  }

  /** A text of printable characters without dollar signs and closing braces is left alone. */
  lemma PlainIsSanitary(value: string)
    requires forall c :: c in value ==> !IsControl(c) && c != '$' && c != '}'
    ensures Sanitise(value) == value
  {
    NothingToReplace(value, "${", "");
    NothingToReplace(value, "}", "");
    NothingToDrop(value);
  }

  /** `count.to_string()`. */
  function Decimal(n: nat): (r: string)
    ensures r != [] && forall c :: c in r ==> '0' <= c <= '9'
  {
    var digit := ('0' as int + n % 10) as char;
    if n < 10 then [digit] else Decimal(n / 10) + [digit]
  }

  // The number that a row of digits stands for.
  function NumberOf(digits: string): int {
    if digits == "" then 0 else NumberOf(digits[..|digits| - 1]) * 10 + (digits[|digits| - 1] as int - '0' as int)
  }

  /** Reading the digits gives the number back, and no zero stands in front. */
  lemma {:induction false} DecimalIsNumeral(n: nat)
    ensures NumberOf(Decimal(n)) == n && (n > 0 ==> Decimal(n)[0] != '0')
  {
    if n < 10 {
      assert NumberOf(Decimal(n)) == NumberOf("") * 10 + n;
    } else {
      DecimalIsNumeral(n / 10);
      assert Decimal(n)[..|Decimal(n)| - 1] == Decimal(n / 10);
    }
  }

  lemma CountIsInert(n: nat)
    ensures Inert(Sanitise(Decimal(n)))
  {
    PlainIsSanitary(Decimal(n));
  }

  lemma PlainIsInert(value: string)
    requires value != "" && forall c :: c in value ==> !IsControl(c) && c != '$' && c != '{' && c != '}'
    ensures Inert(Sanitise(value))
  {
    PlainIsSanitary(value);
  }

  lemma ActionKindIsInert()
    ensures Inert(Sanitise("send_message"))
  {
    hide Sanitise, Inert;
    assert forall c :: c in "send_message" ==> !IsControl(c) && c != '$' && c != '{' && c != '}';
    PlainIsInert("send_message");
  }

  function Values(count: nat, stamp: string, backend: string, reading: string): (values: seq<string>)
    ensures |values| == 5
  {
    [Sanitise(Decimal(count)), Sanitise(stamp), Sanitise(backend), Sanitise(reading), Sanitise("send_message")]
  }

  // ---------- repetition ----------

  /** The stamp `n` times, separated by spaces. */
  function Join(stamp: string, n: nat): string {
    if n == 0 then "" else if n == 1 then stamp else Join(stamp, n - 1) + " " + stamp
  }

  lemma OneStamp(stamp: string)
    ensures Join(stamp, 1) == stamp
  {
  }

  predicate StandsAt(row: string, text: string, at: int) {
    0 <= at && at + |text| <= |row| && row[at..at + |text|] == text
  }

  // Where the i-th stamp of a row begins.
  function Place(stamp: string, i: nat): nat { i * (|stamp| + 1) }

  /** A row of `n` stamps, position by position: the i-th begins at i times the stamp's length plus one,
      a space stands before each but the first, and nothing else has room. */
  ghost predicate IsRow(row: string, stamp: string, n: nat) {
    && |row| == (if n == 0 then 0 else n * |stamp| + n - 1)
    && (forall i: nat :: i < n ==> StandsAt(row, stamp, Place(stamp, i)))
    && (forall i: nat :: 0 < i < n ==> StandsAt(row, " ", Place(stamp, i) - 1))
  }

  lemma PlaceOfLast(stamp: string, n: nat)
    requires n >= 1
    ensures Place(stamp, n) == n * |stamp| + n - 1 + 1
  {
  }

  // One stamp more at the end of a row.
  lemma RowGrows(before: string, stamp: string, n: nat)
    requires n >= 1 && IsRow(before, stamp, n)
    ensures IsRow(before + " " + stamp, stamp, n + 1)
  {
    hide Place;
    var row := before + " " + stamp;
    PlaceOfLast(stamp, n);
    assert StandsAt(row, stamp, Place(stamp, n)) && StandsAt(row, " ", Place(stamp, n) - 1);
    forall text, at | StandsAt(before, text, at)
      ensures StandsAt(row, text, at)
    {
      assert row[at..at + |text|] == before[at..at + |text|];
    }
    assert (n + 1) * |stamp| == n * |stamp| + |stamp|;
  }

  lemma {:induction false} JoinIsRow(stamp: string, n: nat)
    ensures IsRow(Join(stamp, n), stamp, n)
  {
    if n >= 2 {
      hide IsRow;
      JoinIsRow(stamp, n - 1);
      RowGrows(Join(stamp, n - 1), stamp, n - 1);
    }
  }

  /** `repeat_stamp` and `join_repeated`. */
  method RepeatStamp(stamp: string, n: nat) returns (out: string)
    ensures out == Join(stamp, n) && IsRow(out, stamp, n)
  {
    JoinIsRow(stamp, n);
    out := "";
    for idx := 0 to n
      invariant out == Join(stamp, idx)
    {
      if idx > 0 {
        out := out + " ";
      }
      out := out + stamp;
    }
  }

  lemma {:induction false} JoinLength(stamp: string, n: nat)
    ensures n >= 1 ==> |Join(stamp, n)| == n * |stamp| + n - 1
  {
    if n >= 2 {
      JoinLength(stamp, n - 1);
    }
  }

  /** Fewer repetitions are a prefix of more. */
  lemma {:induction false} JoinPrefix(stamp: string, m: nat, n: nat)
    requires m <= n
    ensures Join(stamp, m) <= Join(stamp, n)
    decreases n
  {
    if m < n {
      JoinPrefix(stamp, m, n - 1);
    }
  }

  lemma {:induction false} JoinHasNoOpen(stamp: string, n: nat)
    requires NoOpen(stamp)
    ensures NoOpen(Join(stamp, n))
  {
    if n >= 2 {
      JoinHasNoOpen(stamp, n - 1);
      var before := Join(stamp, n - 1);
      var out := before + " " + stamp;
      assert forall i :: |before| < i < |out| ==> out[i] == stamp[i - |before| - 1];
    }
  }

  lemma JoinBlank(stamp: string, n: nat)
    requires n >= 1
    ensures IsBlank(Join(stamp, n)) <==> IsBlank(stamp)
  {
    JoinPrefix(stamp, 1, n);
    if IsBlank(stamp) {
      BlankJoin(stamp, n);
    } else {
      var c :| c in stamp && !IsWhitespace(c);
      assert c in Join(stamp, n);
    }
  }

  lemma {:induction false} BlankJoin(stamp: string, n: nat)
    requires IsBlank(stamp)
    ensures IsBlank(Join(stamp, n))
  {
    if n >= 2 {
      BlankJoin(stamp, n - 1);
    }
  }

  // ---------- rendering ----------

  /** `render_template`. A text that comes out as exactly the stamp is repeated. */
  function Render(template: string, count: nat, stamp: string, backend: string, reading: string): Option<string> {
    match Substitute(template, Values(count, stamp, backend, reading))
    case None => None
    case Some(output) => Some(if output == stamp then Join(stamp, count) else output)
  }

  lemma PlaceholdersSpelled()
    ensures Placeholder(0) == "${count}" && Placeholder(1) == "${stamp}" && Placeholder(2) == "${matched_backend}"
    ensures Placeholder(3) == "${matched_reading}" && Placeholder(4) == "${action_kind}"
  {
  }

  /** Rendering in full: which placeholder is replaced by what, in which order, and what is refused. */
  lemma RenderStepByStep(template: string, count: nat, stamp: string, backend: string, reading: string)
    ensures var a := Replace(template, "${count}", Decimal(count));
            var b := Replace(a, "${stamp}", Sanitise(stamp));
            var c := Replace(b, "${matched_backend}", Sanitise(backend));
            var d := Replace(c, "${matched_reading}", Sanitise(reading));
            var e := Replace(d, "${action_kind}", "send_message");
            Render(template, count, stamp, backend, reading) ==
            if Contains(e, "${") then None else Some(if e == stamp then Join(stamp, count) else e)
  {
    hide Replace, Sanitise, Placeholder, Contains, Join, Decimal;
    PlaceholdersSpelled();
    PlainIsSanitary(Decimal(count));
    PlainIsSanitary("send_message");
    var values := Values(count, stamp, backend, reading);
    assert Replaced(template, values, 1) == Replace(template, "${count}", Decimal(count));
    assert Replaced(template, values, 2) == Replace(Replaced(template, values, 1), "${stamp}", Sanitise(stamp));
    assert Replaced(template, values, 3) == Replace(Replaced(template, values, 2), "${matched_backend}", Sanitise(backend));
    assert Replaced(template, values, 4) == Replace(Replaced(template, values, 3), "${matched_reading}", Sanitise(reading));
    assert Replaced(template, values, 5) == Replace(Replaced(template, values, 4), "${action_kind}", "send_message");
  }

  method RenderTemplate(template: string, count: nat, stamp: string, backend: string, reading: string)
    returns (r: Option<string>)
    ensures r == Render(template, count, stamp, backend, reading)
    ensures r.Some? ==> !Contains(r.value, "${")
  {
    var values := Values(count, stamp, backend, reading);
    var output := template;
    for key := 0 to 5
      invariant output == Replaced(template, values, key)
    {
      output := Replace(output, Placeholder(key), values[key]);
    }
    RenderedHasNoOpen(template, count, stamp, backend, reading);
    if Contains(output, "${") {
      return None;
    }
    if output == stamp {
      var repeated := RepeatStamp(stamp, count);
      return Some(repeated);
    }
    return Some(output);
  }

  /** No rendered text contains an opening mark, whatever the template and the values. */
  lemma RenderedHasNoOpen(template: string, count: nat, stamp: string, backend: string, reading: string)
    ensures var r := Render(template, count, stamp, backend, reading);
            r.Some? ==> !Contains(r.value, "${")
  {
    NoOpenIff(stamp);
    if NoOpen(stamp) {
      JoinHasNoOpen(stamp, count);
      NoOpenIff(Join(stamp, count));
    }
  }

  lemma StampHole()
    ensures NextHole("${stamp}") == Next(0, 1, 8)
  {
    var t := "${stamp}";
    assert Find(t, "${") == Some(0);
    assert t[2..] == KEYS[1] + "}";
    FindsClosingBrace(KEYS[1]);
    assert t[2..][..5] == KEYS[1];
  }

  lemma StampTemplateParses()
    ensures Parse("${stamp}") == Parsed([Text(""), Hole(1), Text("")])
  {
    hide NextHole;
    var t := "${stamp}";
    StampHole();
    assert t[8..] == "" && t[..0] == "";
    EmptyParses();
  }

  lemma EmptyParses()
    ensures Parse("") == Parsed([Text("")])
  {
  }

  lemma {:induction false} FindsClosingBrace(name: string)
    requires '}' !in name
    ensures Find(name + "}", "}") == Some(|name|)
  {
    var s := name + "}";
    if name == "" {
      assert s == "}";
    } else {
      assert s[1..] == name[1..] + "}";
      assert s[0] == name[0] && name[0] in name;
      FindsClosingBrace(name[1..]);
    }
  }

  /** The default template with a clean stamp yields the stamp, repeated. */
  lemma StampTemplateRepeats(count: nat, stamp: string, backend: string, reading: string)
    requires Sanitise(stamp) == stamp
    ensures Substitute("${stamp}", Values(count, stamp, backend, reading)) == Some(stamp)
    ensures Render("${stamp}", count, stamp, backend, reading) == Some(Join(stamp, count))
  {
    var values := Values(count, stamp, backend, reading);
    var segments := [Text(""), Hole(1), Text("")];
    StampTemplateParses();
    SubstituteIsSimultaneous("${stamp}", segments, values);
    SanitisedFixpoint(stamp);
    assert segments[1..] == [Hole(1), Text("")] && segments[1..][1..] == [Text("")] && [Text("")][1..] == [];
    assert Fill([Text("")], 5, values) == "";
    assert Fill(segments[1..], 5, values) == stamp + "";
    assert Simultaneous(segments, values) == stamp;
  }
}
