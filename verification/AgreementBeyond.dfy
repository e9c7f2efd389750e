/** When the direct and the governed path agree outside the premises of `Agreement`: on stamps that
    sanitising changes, and on messages longer than the guest accepts. */
module AgreementBeyond {
  import opened Strings
  import opened Bot
  import opened Rendering
  import opened Detector
  import opened ResponseCompiler
  import opened SanitisingLaws
  import opened Agreement
  import OoCounter
  import PureAnalyzer
  import SubstitutionLaws
  import Template
  import Utf8

  // ---------- stamps that sanitising changes ----------

  lemma StampFills(values: seq<string>)
    requires |values| == 5
    ensures Template.Simultaneous([Template.Text(""), Template.Hole(1), Template.Text("")], values) == values[1]
  {
    var segments := [Template.Text(""), Template.Hole(1), Template.Text("")];
    Template.FillText("", 5, values);
    assert segments[1..] == [Template.Hole(1), Template.Text("")] && segments[1..][1..] == [Template.Text("")];
    assert Template.Fill(segments[1..], 5, values) == values[1] + "" == values[1];
  }

  /** The default template with any stamp: refused if the sanitised stamp contains an opening mark;
      otherwise the sanitised stamp comes out, repeated only if sanitising left it alone. */
  lemma StampTemplateExactly(count: nat, stamp: string, backend: string, reading: string)
    ensures Render("${stamp}", count, stamp, backend, reading) ==
            if Contains(Sanitise(stamp), "${") then None
            else Some(if Sanitise(stamp) == stamp then Join(stamp, count) else Sanitise(stamp))
  {
    hide Sanitise, Template.Parse, Contains, Template.Fill, Join, Render, Template.Simultaneous;
    var segments := [Template.Text(""), Template.Hole(1), Template.Text("")];
    StampTemplateParses();
    SubstitutionLaws.RenderExactly("${stamp}", segments, count, stamp, backend, reading);
    StampFills(Values(count, stamp, backend, reading));
  }

  lemma SanitisedIsShorter(value: string)
    requires Sanitise(value) != value
    ensures |Sanitise(value)| < |value|
  {
    hide Sanitise, Kept;
    SanitiseKeepsTheKept(value);
    ChosenWhole(value, 0);
    assert value[0..] == value;
  }

  // What the direct path makes of such a stamp.
  function CleanedText(bot: BotConfig, k: nat): string {
    var cut := Take(Sanitise(bot.stampText), bot.maxSendChars);
    if Contains(Sanitise(bot.stampText), "${") || cut == "" then Join(bot.stampText, Fitting(bot, k)) else cut
  }

  lemma CleanedSent(content: string, bot: BotConfig, report: Report)
    requires bot.sendTemplate == "${stamp}" && bot.actionPolicy == ReactOrSend
    requires Sanitise(bot.stampText) != bot.stampText
    requires !report.specialPhraseHit && !Contains(content, bot.specialPhrase) && bot.Capped(report.totalCount) >= 2
    ensures PureAnalyzer.Analyze(content, false, bot, report)
         == SendMessage(CleanedText(bot, bot.Capped(report.totalCount)))
  {
    hide Render, Sanitise, Join, Contains, PureAnalyzer.MaxRepeats;
    var n := Fitting(bot, bot.Capped(report.totalCount));
    StampTemplateExactly(n, bot.stampText, report.matchedBackend, FirstReading(report));
    assert PureAnalyzer.Repeats(bot, report.totalCount) == n;
  }

  lemma NothingIntended(c: Context)
    requires c.proposal.SendStamped? && StampRepeats(c) >= 2
    requires Render(c.bot.sendTemplate, StampRepeats(c), c.bot.stampText, c.matchedBackend, c.matchedReading) == None
    ensures IntendedText(c) == None && !ProposalToAction(c).React?
  {
  }

  // What the governed path makes of it.
  lemma CleanedCompiled(c: Context)
    requires c.proposal.SendStamped? && StampRepeats(c) >= 2 && SendingOpen(c)
    requires c.bot.sendTemplate == "${stamp}" && Sanitise(c.bot.stampText) != c.bot.stampText
    ensures var cut := Take(Sanitise(c.bot.stampText), c.maxSendChars);
            Compile(c) == if Contains(Sanitise(c.bot.stampText), "${") || IsBlank(cut) then BotAction.Noop
                          else SendMessage(cut)
  {
    hide Render, Sanitise, Contains, Compile, StampRepeats, IsBlank, ProposalToAction, IntendedText;
    var clean := Sanitise(c.bot.stampText);
    StampTemplateExactly(StampRepeats(c), c.bot.stampText, c.matchedBackend, c.matchedReading);
    if Contains(clean, "${") {
      NothingIntended(c);
    } else {
      RowIntended(c, clean);
      BlankRowsStayBlank(clean, c.maxSendChars);
    }
    IntendedCompiled(c);
  }

  // Cut at the same length, and not to nothing by the direct path.
  predicate CutAlike(clean: string, limit: nat, maxSendChars: nat) {
    limit > 0 && Min(|clean|, limit) == Min(|clean|, maxSendChars)
  }

  lemma CleanedTextsAgree(bot: BotConfig, maxSendChars: nat, k: nat)
    requires k >= 1 && Sanitise(bot.stampText) != bot.stampText
    requires !Contains(Sanitise(bot.stampText), "${") && Sanitise(bot.stampText) != ""
    ensures CleanedText(bot, k) == Take(Sanitise(bot.stampText), maxSendChars)
            <==> CutAlike(Sanitise(bot.stampText), bot.maxSendChars, maxSendChars)
  {
    hide Sanitise, Contains, Join, PureAnalyzer.MaxRepeats;
    var clean := Sanitise(bot.stampText);
    SanitisedIsShorter(bot.stampText);
    JoinPrefix(bot.stampText, 1, Fitting(bot, k));
    OneStamp(bot.stampText);
    PrefixesOfOne(Take(clean, bot.maxSendChars), Take(clean, maxSendChars), clean);
  }

  lemma EmptyIsBlank()
    ensures IsBlank("")
  {
  }

  /** With a stamp that sanitising changes the paths agree on a phrase and on few hits as before, and on
      more exactly when the sanitised stamp, of which only one is sent, contains no opening mark, is
      visible within the governor's limit and is cut alike by both. */
  lemma UnsanitaryAgreesExactly(content: string, bot: BotConfig, maxSendChars: nat, tokens: TokenScan)
    requires Readable(content, bot, tokens) && Sanitise(bot.stampText) != bot.stampText
    ensures var (k, clean) := (bot.Capped(ReportOf(content, bot, tokens).totalCount), Sanitise(bot.stampText));
            Governed(content, bot, maxSendChars, tokens) == Direct(content, bot, tokens) <==>
            if Contains(content, bot.specialPhrase)
            then !IsBlank(Take(bot.stampText, maxSendChars)) && |bot.stampText| <= maxSendChars
            else k <= 1 || (&& !Contains(clean, "${") && !IsBlank(Take(clean, maxSendChars))
                            && CutAlike(clean, bot.maxSendChars, maxSendChars))
  {
    hide Sanitise, Contains, Compile, IsBlank, CleanedText, ReportOf, PureAnalyzer.Analyze, StampRepeats, CutAlike;
    var report, clean := ReportOf(content, bot, tokens), Sanitise(bot.stampText);
    var k, c := bot.Capped(report.totalCount), GovernedContext(content, bot, maxSendChars, report);
    if Contains(content, bot.specialPhrase) {
      AgreeOnPhrase(content, bot, maxSendChars, tokens);
    } else if k <= 1 {
      AgreeOnFew(content, bot, maxSendChars, tokens);
    } else {
      ReportMeans(content, bot, tokens);
      CleanedSent(content, bot, report);
      ManyAnswered(content, bot, maxSendChars, tokens);
      CleanedCompiled(c);
      EmptyIsBlank();
      if !Contains(clean, "${") && clean != "" {
        CleanedTextsAgree(bot, maxSendChars, k);
      }
    }
  }

  // ---------- messages longer than the guest accepts ----------

  lemma NothingCounted(content: string, bot: BotConfig, tokens: TokenScan)
    requires bot.specialPhrase != ""
    ensures var report := ReportOf(content, bot, tokens);
            && (report.totalCount == 0 <==> OoCounter.OoCount(content) + tokens.hits == 0)
            && (report.specialPhraseHit <==> Contains(content, bot.specialPhrase))
  {
    DefaultReport(content, bot.specialPhrase, tokens);
  }

  /** Over 32768 bytes the governed path does nothing, so the paths agree exactly when the direct path has
      nothing to do either: no phrase and not one hit. */
  lemma OversizedAgreesExactly(content: string, bot: BotConfig, maxSendChars: nat, tokens: TokenScan)
    requires DefaultShape(bot) && |Utf8.Encode(content)| > 32768
    ensures Governed(content, bot, maxSendChars, tokens) == BotAction.Noop
    ensures Governed(content, bot, maxSendChars, tokens) == Direct(content, bot, tokens) <==>
            !Contains(content, bot.specialPhrase) && OoCounter.OoCount(content) + tokens.hits == 0
  {
    hide ReportOf, Contains, PureAnalyzer.RenderSend, OoCounter.OoCount, Utf8.Encode, Join;
    NothingCounted(content, bot, tokens);
  }
}
