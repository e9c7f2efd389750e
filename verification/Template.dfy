/** The send template: `validate_template` (src/config.rs), and the substitution that both the
    response compiler and the pure analyzer perform by five successive replacements. */
module Template {
  import opened Strings

  // ---------- placeholders ----------

  // Placeholder names, in the order in which they are replaced.
  const KEYS := ["count", "stamp", "matched_backend", "matched_reading", "action_kind"]

  type KeyIndex = k: nat | k < 5

  function Placeholder(key: KeyIndex): (p: string)
    ensures |p| >= 3 && p[0] == '$' && p[1] == '{' && p[|p| - 1] == '}'
  {
    "${" + KEYS[key] + "}"
  }

  /** `is_allowed_placeholder`, with the position of the name. */
  function AllowedKey(name: string): (r: Option<KeyIndex>)
    ensures r.Some? <==> name in KEYS
    ensures r.Some? ==> KEYS[r.value] == name
  {
    if name == KEYS[0] then Some(0)
    else if name == KEYS[1] then Some(1)
    else if name == KEYS[2] then Some(2)
    else if name == KEYS[3] then Some(3)
    else if name == KEYS[4] then Some(4)
    else None
  }

  // ---------- what a template means ----------

  datatype Segment = Text(text: string) | Hole(key: KeyIndex)

  datatype Parsed = Parsed(segments: seq<Segment>) | NotClosed | Undefined(name: string)

  // What comes next in a template: no placeholder, a mistake, or a placeholder at `open` after
  // which the template goes on at `after`.
  datatype Next = NoneLeft | Mistake(refusal: Parsed) | Next(open: nat, key: KeyIndex, after: nat)

  function NextHole(template: string): (r: Next)
    ensures r.Mistake? ==> !r.refusal.Parsed?
    ensures r.Next? ==> r.open < r.after <= |template|
  {
    match Find(template, "${")
    case None => NoneLeft
    case Some(open) =>
      var rest := template[open + 2..];
      match Find(rest, "}")
      case None => Mistake(NotClosed)
      case Some(close) =>
        match AllowedKey(rest[..close])
        case None => Mistake(Undefined(rest[..close]))
        case Some(key) => Next(open, key, open + 2 + close + 1)
  }

  /** A template reads, left to right, as literal text and placeholders. */
  function Parse(template: string): Parsed
    decreases |template|
  {
    match NextHole(template)
    case NoneLeft => Parsed([Text(template)])
    case Mistake(refusal) => refusal
    case Next(open, key, after) =>
      match Parse(template[after..])
      case Parsed(segments) => Parsed([Text(template[..open]), Hole(key)] + segments)
      case refused => refused
  }

  // The text when the placeholders before `done` have been replaced by their values.
  function Fill(segments: seq<Segment>, done: nat, values: seq<string>): string
    requires |values| == 5
  {
    if segments == [] then ""
    else Piece(segments[0], done, values) + Fill(segments[1..], done, values)
  }

  function Piece(segment: Segment, done: nat, values: seq<string>): string
    requires |values| == 5
  {
    match segment
    case Text(text) => text
    case Hole(key) => if key < done then values[key] else Placeholder(key)
  }

  /** One simultaneous left-to-right substitution. */
  function Simultaneous(segments: seq<Segment>, values: seq<string>): string
    requires |values| == 5
  {
    Fill(segments, 5, values)
  }

  lemma FirstAt(s: string, p: string, at: nat)
    requires Find(s, p) == Some(at)
    ensures s == s[..at] + (p + s[at + |p|..]) == s[..at] + p + s[at + |p|..]
  {
    FindIsFirst(s, p);
    assert s[at..][..|p|] == p;
    assert s[at..] == p + s[at + |p|..];
  }

  lemma NextHoleSpells(template: string)
    requires NextHole(template).Next?
    ensures var next := NextHole(template);
            template == template[..next.open] + (Placeholder(next.key) + template[next.after..])
  {
    var open := Find(template, "${").value;
    var rest := template[open + 2..];
    var close := Find(rest, "}").value;
    FirstAt(template, "${", open);
    FirstAt(rest, "}", close);
    assert rest[close + 1..] == template[open + 2 + close + 1..];
    Reassociate("${", rest[..close], "}", rest[close + 1..]);
  }

  lemma Reassociate(a: string, b: string, c: string, d: string)
    ensures (a + b + c) + d == a + (b + c + d)
  {
  }

  /** Parsing loses nothing: with no placeholder replaced the segments spell the template. */
  lemma {:induction false} ParseSpellsTemplate(template: string, values: seq<string>)
    requires |values| == 5 && Parse(template).Parsed?
    ensures Fill(Parse(template).segments, 0, values) == template
    decreases |template|
  {
    hide NextHole, Fill, Placeholder;
    match NextHole(template)
    case NoneLeft => FillText(template, 0, values);
    case Next(open, key, after) =>
      ParseSpellsTemplate(template[after..], values);
      NextHoleSpells(template);
      FillHole(template[..open], key, Parse(template[after..]).segments, values);
  }

  lemma FillText(text: string, done: nat, values: seq<string>)
    requires |values| == 5
    ensures Fill([Text(text)], done, values) == text
  {
    assert [Text(text)][1..] == [];
  }

  lemma FillHole(text: string, key: KeyIndex, tail: seq<Segment>, values: seq<string>)
    requires |values| == 5
    ensures Fill([Text(text), Hole(key)] + tail, 0, values) == text + (Placeholder(key) + Fill(tail, 0, values))
  {
    var segments := [Text(text), Hole(key)] + tail;
    assert segments[1..] == [Hole(key)] + tail;
    assert segments[1..][1..] == tail;
  }

  // Why a template is refused, if it is.
  function Refusal(template: string): Option<Parsed> {
    if Parse(template).Parsed? then None else Some(Parse(template))
  }

  lemma RefusalStep(template: string)
    ensures match NextHole(template)
            case NoneLeft => Refusal(template) == None
            case Mistake(refusal) => Refusal(template) == Some(refusal)
            case Next(_, _, after) => Refusal(template) == Refusal(template[after..])
  {
  }

  /** `validate_template`: accepts exactly the templates that parse, with the same refusals. */
  method ValidateTemplate(template: string) returns (refusal: Option<Parsed>)
    ensures refusal == Refusal(template)
  {
    var cursor := 0;
    var left := template;
    while true
      invariant cursor <= |template| && left == template[cursor..]
      invariant Refusal(left) == Refusal(template)
      decreases |template| - cursor
    {
      RefusalStep(left);
      var next := CheckNextHole(left);
      if next.NoneLeft? {
        return None;
      }
      if next.Mistake? {
        return Some(next.refusal);
      }
      cursor := cursor + next.after;
      left := left[next.after..];
    }
  }

  // The body of the validation loop, on the part of the template after the cursor.
  method CheckNextHole(template: string) returns (next: Next)
    ensures next == NextHole(template)
  {
    var open := Find(template, "${");
    if open == None {
      return NoneLeft;
    }
    var rest := template[open.value + 2..];
    var close := Find(rest, "}");
    if close == None {
      return Mistake(NotClosed);
    }
    var name := rest[..close.value];
    var key := AllowedKey(name);
    if key == None {
      return Mistake(Undefined(name));
    }
    next := Next(open.value, key.value, open.value + 2 + close.value + 1);
  }

  // ---------- successive replacement ----------

  ghost predicate NoOpen(s: string) {
    forall i :: 0 <= i < |s| - 1 ==> !(s[i] == '$' && s[i + 1] == '{')
  }

  lemma OpensAt(s: string, k: nat)
    requires k <= |s|
    ensures "${" <= s[k..] <==> k + 1 < |s| && s[k] == '$' && s[k + 1] == '{'
  {
    if k + 1 < |s| {
      assert s[k..][0] == s[k] && s[k..][1] == s[k + 1];
      assert s[k..][..2] == [s[k], s[k + 1]];
    }
  }

  lemma NoOpenIff(s: string)
    ensures NoOpen(s) <==> !Contains(s, "${")
  {
    ContainsIff(s, "${");
    forall k | 0 <= k <= |s|
      ensures "${" <= s[k..] <==> k + 1 < |s| && s[k] == '$' && s[k + 1] == '{'
    {
      OpensAt(s, k);
    }
    if !NoOpen(s) {
      var i :| 0 <= i < |s| - 1 && s[i] == '$' && s[i + 1] == '{';
      OpensAt(s, i);
    } else if Contains(s, "${") {
      FindIsFirst(s, "${");
      OpensAt(s, Find(s, "${").value);
    }
  }

  lemma NoOpenParts(a: string, b: string)
    ensures NoOpen(a + b) ==> NoOpen(a) && NoOpen(b)
    ensures NoOpen(a + b) && a != [] && a[|a| - 1] == '$' && b != [] ==> b[0] != '{'
  {
    if NoOpen(a + b) {
      assert forall i :: 0 <= i < |a| ==> (a + b)[i] == a[i];
      assert forall i :: 0 <= i < |b| ==> (a + b)[|a| + i] == b[i];
      forall i | 0 <= i < |b| - 1
        ensures !(b[i] == '$' && b[i + 1] == '{')
      {
        assert (a + b)[|a| + i] == b[i] && (a + b)[|a| + i + 1] == b[i + 1];
      }
      if a != [] && b != [] {
        assert (a + b)[|a| - 1] == a[|a| - 1] && (a + b)[|a| - 1 + 1] == b[0];
      }
    }
  }

  // Replacement leaves text alone in which no placeholder can start.
  lemma {:induction false} ReplaceSkips(x: string, t: string, needle: string, value: string)
    requires |needle| >= 2 && needle[0] == '$' && needle[1] == '{'
    requires NoOpen(x)
    requires x != [] && x[|x| - 1] == '$' && t != [] ==> t[0] != '{'
    ensures Replace(x + t, needle, value) == x + Replace(t, needle, value)
    decreases |x|
  {
    hide Replace;
    if x == [] {
      assert x + t == t;
    } else {
      var s := x + t;
      assert s[1..] == x[1..] + t;
      assert !(needle <= s) by {
        if |s| >= 2 {
          assert s[0] == x[0] && s[1] == if |x| > 1 then x[1] else t[0];
        }
      }
      assert NoOpen(x[1..]) by { assert x == [x[0]] + x[1..]; NoOpenParts([x[0]], x[1..]); }
      ReplaceSteps(s, needle, value);
      ReplaceSkips(x[1..], t, needle, value);
      assert [x[0]] + (x[1..] + Replace(t, needle, value)) == x + Replace(t, needle, value);
    }
  }

  lemma ReplaceHits(t: string, needle: string, value: string)
    requires needle != []
    ensures Replace(needle + t, needle, value) == value + Replace(t, needle, value)
  {
    assert (needle + t)[|needle|..] == t;
  }

  lemma PlaceholdersDiffer(j: KeyIndex, k: KeyIndex, t: string)
    requires j != k
    ensures !(Placeholder(j) <= Placeholder(k) + t)
  {
    var p, q := Placeholder(j), Placeholder(k);
    assert p[2] == KEYS[j][0] && q[2] == KEYS[k][0];
    var at := if p[2] != q[2] then 2 else 10;
    assert at == 10 ==> p[10] == KEYS[j][8] && q[10] == KEYS[k][8];
    assert at < |p| && at < |q| && p[at] != q[at];
    assert (q + t)[at] == q[at];
  }

  // Replacement passes over a placeholder of another key.
  lemma ReplacePassesOther(q: string, t: string, needle: string, value: string)
    requires |needle| >= 2 && needle[0] == '$' && needle[1] == '{'
    requires q != [] && !(needle <= q + t)
    requires forall i :: 1 <= i < |q| ==> q[i] != '$'
    ensures Replace(q + t, needle, value) == q + Replace(t, needle, value)
  {
    hide Replace;
    assert q == [q[0]] + q[1..];
    assert q + t == [q[0]] + (q[1..] + t);
    ReplaceSteps(q + t, needle, value);
    ReplaceSkips(q[1..], t, needle, value);
    assert [q[0]] + (q[1..] + Replace(t, needle, value)) == q + Replace(t, needle, value);
  }

  lemma ReplaceSteps(s: string, needle: string, value: string)
    requires needle != [] && s != [] && !(needle <= s)
    ensures Replace(s, needle, value) == [s[0]] + Replace(s[1..], needle, value)
  {
    if |s| < |needle| {
      assert Replace(s[1..], needle, value) == s[1..];
    }
  }

  lemma NoSecondDollar(key: KeyIndex)
    ensures forall i :: 1 <= i < |Placeholder(key)| ==> Placeholder(key)[i] != '$'
  {
    assert '$' !in KEYS[key];
    assert Placeholder(key) == ['$', '{'] + KEYS[key] + ['}'];
  }

  // Text that begins with an opening brace now will still do so at the end.
  lemma {:induction false} FirstBraceStays(segments: seq<Segment>, done: nat, values: seq<string>)
    requires |values| == 5 && done <= 5
    requires var now := Fill(segments, done, values); now != [] && now[0] == '{'
    ensures var end := Simultaneous(segments, values); end != [] && end[0] == '{'
  {
    var piece := Piece(segments[0], done, values);
    if piece == [] {
      FirstBraceStays(segments[1..], done, values);
    } else {
      assert Fill(segments, done, values)[0] == piece[0];
    }
  }

  /** One replacement fills the holes of one key and touches nothing else. */
  lemma {:induction false} ReplaceFillsOneKey(segments: seq<Segment>, key: KeyIndex, values: seq<string>)
    requires |values| == 5 && NoOpen(Simultaneous(segments, values))
    ensures Replace(Fill(segments, key, values), Placeholder(key), values[key]) == Fill(segments, key + 1, values)
  {
    if segments == [] {
    } else {
      var head, tail := segments[0], segments[1..];
      var rest := Fill(tail, key, values);
      NoOpenParts(Piece(head, 5, values), Simultaneous(tail, values));
      ReplaceFillsOneKey(tail, key, values);
      if head == Hole(key) {
        ReplaceHits(rest, Placeholder(key), values[key]);
      } else if head.Hole? && head.key > key {
        PlaceholdersDiffer(key, head.key, rest);
        NoSecondDollar(head.key);
        ReplacePassesOther(Placeholder(head.key), rest, Placeholder(key), values[key]);
      } else {
        if rest != [] && rest[0] == '{' {
          FirstBraceStays(tail, key, values);
        }
        ReplaceSkips(Piece(head, key, values), rest, Placeholder(key), values[key]);
      }
    }
  }

  // The text after the first `n` of the five replacements.
  function Replaced(template: string, values: seq<string>, n: nat): string
    requires |values| == 5 && n <= 5
  {
    if n == 0 then template else Replace(Replaced(template, values, n - 1), Placeholder(n - 1), values[n - 1])
  }

  lemma {:induction false} ReplacedIsFill(template: string, segments: seq<Segment>, values: seq<string>, n: nat)
    requires |values| == 5 && n <= 5 && Parse(template) == Parsed(segments)
    requires NoOpen(Simultaneous(segments, values))
    ensures Replaced(template, values, n) == Fill(segments, n, values)
  {
    hide Fill, Parse, NoOpen;
    if n == 0 {
      ParseSpellsTemplate(template, values);
    } else {
      ReplacedIsFill(template, segments, values, n - 1);
      ReplaceFillsOneKey(segments, n - 1, values);
    }
  }

  /** The five replacements, refused when an opening mark is left. */
  function Substitute(template: string, values: seq<string>): Option<string>
    requires |values| == 5
  {
    var output := Replaced(template, values, 5);
    if Contains(output, "${") then None else Some(output)
  }

  /** Main result on templates. For an accepted template and any values whatsoever, replacing one
      placeholder after another succeeds with the simultaneous substitution exactly when the latter
      contains no opening mark. */
  lemma SubstituteIsSimultaneous(template: string, segments: seq<Segment>, values: seq<string>)
    requires |values| == 5 && Parse(template) == Parsed(segments)
    ensures Substitute(template, values) == Some(Simultaneous(segments, values))
       <==> !Contains(Simultaneous(segments, values), "${")
  {
    NoOpenIff(Simultaneous(segments, values));
    if NoOpen(Simultaneous(segments, values)) {
      ReplacedIsFill(template, segments, values, 5);
    }
  }

  ghost predicate Inert(value: string) {
    value != [] && '$' !in value && '{' !in value
  }

  /** The values of the placeholders that are used are inert; the others do not matter. */
  ghost predicate UsesInert(segments: seq<Segment>, values: seq<string>)
    requires |values| == 5
  {
    forall s :: s in segments && s.Hole? ==> Inert(values[s.key])
  }

  // Literal text holds no opening mark, and literals do not touch.
  ghost predicate Alternates(segments: seq<Segment>) {
    && (forall s :: s in segments && s.Text? ==> NoOpen(s.text))
    && (forall i :: 0 <= i < |segments| - 1 && segments[i].Text? ==> segments[i + 1].Hole?)
  }

  lemma TextBeforeHole(template: string)
    requires NextHole(template).Next?
    ensures NoOpen(template[..NextHole(template).open])
  {
    TextBefore(template, NextHole(template).open);
  }

  lemma TextBefore(template: string, open: nat)
    requires Find(template, "${") == Some(open)
    ensures NoOpen(template[..open])
  {
    FindIsFirst(template, "${");
    forall i | 0 <= i < open
      ensures !(template[i] == '$' && template[i + 1] == '{')
    {
      OpensAt(template, i);
    }
  }

  lemma AlternatesCons(text: string, key: KeyIndex, tail: seq<Segment>)
    requires NoOpen(text) && Alternates(tail)
    ensures Alternates([Text(text), Hole(key)] + tail)
  {
    var segments := [Text(text), Hole(key)] + tail;
    assert forall i :: 2 <= i < |segments| ==> segments[i] == tail[i - 2];
  }

  lemma {:induction false} ParseAlternates(template: string)
    requires Parse(template).Parsed?
    ensures Alternates(Parse(template).segments)
    decreases |template|
  {
    match NextHole(template)
    case NoneLeft =>
      NoOpenIff(template);
    case Next(open, key, after) =>
      ParseAlternates(template[after..]);
      TextBeforeHole(template);
      AlternatesCons(template[..open], key, Parse(template[after..]).segments);
  }

  // ---------- which templates are accepted ----------

  lemma FirstOpening(text: string, rest: string)
    requires NoOpen(text)
    ensures Find(text + ("${" + rest), "${") == Some(|text|)
  {
    var s := text + ("${" + rest);
    assert s[|text|..] == "${" + rest;
    forall k | 0 <= k < |text|
      ensures !("${" <= s[k..])
    {
      OpensAt(s, k);
      assert s[k] == text[k] && s[k + 1] == if k + 1 < |text| then text[k + 1] else '$';
    }
    FoundAt(s, "${", |text|);
  }

  lemma FirstClosing(name: string, rest: string)
    requires '}' !in name
    ensures Find(name + ("}" + rest), "}") == Some(|name|)
  {
    var s := name + ("}" + rest);
    assert s[|name|..] == "}" + rest;
    forall k | 0 <= k < |name|
      ensures !("}" <= s[k..])
    {
      assert s[k..][0] == name[k] && name[k] in name;
    }
    FoundAt(s, "}", |name|);
  }

  // The next placeholder of a template written as text without opening marks, placeholder, rest.
  lemma NextHoleAfter(text: string, key: KeyIndex, rest: string)
    requires NoOpen(text)
    ensures NextHole(text + (Placeholder(key) + rest)) == Next(|text|, key, |text| + |Placeholder(key)|)
  {
    hide Find;
    var (s, name) := (text + (Placeholder(key) + rest), KEYS[key]);
    assert s == text + ("${" + (name + ("}" + rest)));
    FirstOpening(text, name + ("}" + rest));
    assert s[|text| + 2..] == name + ("}" + rest);
    NameIsPlain(key);
    FirstClosing(name, rest);
    assert (name + ("}" + rest))[..|name|] == name;
    KeysDiffer(key);
  }

  lemma NameIsPlain(key: KeyIndex)
    ensures '}' !in KEYS[key]
  {
  }

  lemma KeysDiffer(key: KeyIndex)
    ensures AllowedKey(KEYS[key]) == Some(key)
  {
  }

  lemma HoleThenParsed(text: string, key: KeyIndex, rest: string)
    requires NoOpen(text) && Parse(rest).Parsed?
    ensures Parse(text + (Placeholder(key) + rest)).Parsed?
  {
    hide NextHole, Placeholder, NoOpen;
    var whole := text + (Placeholder(key) + rest);
    NextHoleAfter(text, key, rest);
    assert whole[|text| + |Placeholder(key)|..] == rest;
  }

  // Text and placeholder, or a placeholder alone, in front.
  lemma FillFront(text: string, key: KeyIndex, tail: seq<Segment>, values: seq<string>)
    requires |values| == 5
    ensures Fill([Text(text), Hole(key)] + tail, 0, values) == text + (Placeholder(key) + Fill(tail, 0, values))
    ensures Fill([Hole(key)] + tail, 0, values) == "" + (Placeholder(key) + Fill(tail, 0, values))
  {
    hide Placeholder;
    FillHole(text, key, tail, values);
    assert ([Hole(key)] + tail)[1..] == tail;
  }

  lemma {:induction false} SpelledParses(segments: seq<Segment>, values: seq<string>)
    requires |values| == 5 && Alternates(segments)
    ensures Parse(Fill(segments, 0, values)).Parsed?
    decreases |segments|
  {
    hide Parse, Placeholder, Fill, NoOpen;
    if segments == [] {
      NothingSpelled(values);
      FirstOf("");
    } else if |segments| == 1 && segments[0].Text? {
      assert segments[0] in segments;
      assert segments == [Text(segments[0].text)];
      FillText(segments[0].text, 0, values);
      FirstOf(segments[0].text);
    } else if segments[0].Text? {
      var (text, key, tail) := (segments[0].text, segments[1].key, segments[2..]);
      assert segments == [Text(text), Hole(key)] + tail;
      assert segments[0] in segments;
      AlternatesFrom(segments, 2);
      SpelledParses(tail, values);
      FillFront(text, key, tail, values);
      HoleThenParsed(text, key, Fill(tail, 0, values));
    } else {
      var (key, tail) := (segments[0].key, segments[1..]);
      assert segments == [Hole(key)] + tail;
      AlternatesFrom(segments, 1);
      SpelledParses(tail, values);
      FillFront("", key, tail, values);
      NothingSpelled(values);
      HoleThenParsed("", key, Fill(tail, 0, values));
    }
  }

  lemma AlternatesFrom(segments: seq<Segment>, n: nat)
    requires Alternates(segments) && n <= |segments|
    ensures Alternates(segments[n..])
  {
    hide NoOpen;
    assert forall s :: s in segments[n..] ==> s in segments;
  }

  lemma NothingSpelled(values: seq<string>)
    requires |values| == 5
    ensures Fill([], 0, values) == "" && NoOpen("")
  {
  }

  lemma FirstOf(text: string)
    requires NoOpen(text)
    ensures Parse(text) == Parsed([Text(text)])
  {
    NoOpenIff(text);
  }

  /** Validation accepts exactly the templates that can be written as literal texts without opening marks
      and placeholders in between. */
  lemma AcceptedExactly(template: string, values: seq<string>)
    requires |values| == 5
    ensures Refusal(template) == None <==>
            exists segments :: Alternates(segments) && Fill(segments, 0, values) == template
  {
    if Refusal(template) == None {
      ParseAlternates(template);
      ParseSpellsTemplate(template, values);
    }
    if segments :| Alternates(segments) && Fill(segments, 0, values) == template {
      SpelledParses(segments, values);
    }
  }

  /** Why a template is refused: an accepted part is followed by an opening mark that is never closed, or
      that is closed behind a name which is none of the five. */
  lemma {:induction false} RefusedFor(template: string) returns (before: string, rest: string)
    requires Refusal(template).Some?
    ensures template == before + "${" + rest && Refusal(before) == None
    ensures match Refusal(template).value
            case NotClosed => '}' !in rest
            case Undefined(name) => '}' !in name && name + "}" <= rest
                                    && name !in ["count", "stamp", "matched_backend", "matched_reading", "action_kind"]
            case Parsed(_) => false
    decreases |template|
  {
    hide NextHole, Parse;
    RefusalStep(template);
    match NextHole(template)
    case NoneLeft =>
    case Mistake(refusal) =>
      before, rest := BadHole(template);
    case Next(open, key, after) =>
      var tail;
      tail, rest := RefusedFor(template[after..]);
      NextHoleSpells(template);
      TextBeforeHole(template);
      before := template[..open] + (Placeholder(key) + tail);
      HoleThenParsed(template[..open], key, tail);
  }

  lemma BadHole(template: string) returns (before: string, rest: string)
    requires NextHole(template).Mistake?
    ensures template == before + "${" + rest && Refusal(before) == None
    ensures match NextHole(template).refusal
            case NotClosed => '}' !in rest
            case Undefined(name) => '}' !in name && name + "}" <= rest
                                    && name !in ["count", "stamp", "matched_backend", "matched_reading", "action_kind"]
            case Parsed(_) => false
  {
    hide Find, Parse, NoOpen;
    var open := Find(template, "${").value;
    before, rest := template[..open], template[open + 2..];
    FirstAt(template, "${", open);
    TextBefore(template, open);
    FirstOf(before);
    BraceSearch(rest);
  }

  lemma BraceSearch(rest: string)
    ensures match Find(rest, "}")
            case None => '}' !in rest
            case Some(close) => '}' !in rest[..close] && rest[..close] + "}" <= rest
  {
    FindIsFirst(rest, "}");
    var close := Find(rest, "}");
    forall i | 0 <= i < if close == None then |rest| else close.value
      ensures rest[i] != '}'
    {
      assert rest[i..][0] == rest[i];
    }
    if close.Some? {
      FirstAt(rest, "}", close.value);
    }
  }

  lemma {:induction false} InertValuesLeaveNoOpen(segments: seq<Segment>, values: seq<string>)
    requires |values| == 5 && UsesInert(segments, values)
    requires Alternates(segments)
    ensures NoOpen(Simultaneous(segments, values))
    ensures segments != [] && segments[0].Hole? ==>
              var out := Simultaneous(segments, values); out != [] && out[0] != '{'
  {
    if segments != [] {
      var piece, rest := Piece(segments[0], 5, values), Simultaneous(segments[1..], values);
      InertValuesLeaveNoOpen(segments[1..], values);
      var out := piece + rest;
      assert segments[0] in segments;
      if segments[0].Text? && |segments| > 1 {
        assert segments[1..][0].Hole?;
      }
      if segments[0].Hole? {
        assert Inert(values[segments[0].key]);
        assert piece[0] in piece;
      }
      forall i | 0 <= i < |out| - 1
        ensures !(out[i] == '$' && out[i + 1] == '{')
      {
        if i < |piece| {
          assert out[i] in piece;
        } else {
          assert out[i] == rest[i - |piece|] && out[i + 1] == rest[i - |piece| + 1];
        }
      }
    }
  }

  /** With non-empty values free of `$` and `{` for the placeholders it uses, every accepted template
      renders, as intended. */
  lemma InertValuesRender(template: string, segments: seq<Segment>, values: seq<string>)
    requires |values| == 5 && Parse(template) == Parsed(segments) && UsesInert(segments, values)
    ensures Substitute(template, values) == Some(Simultaneous(segments, values))
  {
    ParseAlternates(template);
    InertValuesLeaveNoOpen(segments, values);
    NoOpenIff(Simultaneous(segments, values));
    SubstituteIsSimultaneous(template, segments, values);
  }
}
