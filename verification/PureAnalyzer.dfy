/** src/app/analyze_message.rs: the simple path from a message to an action. */
module PureAnalyzer {
  import opened Strings
  import opened Bot
  import opened Rendering
  import opened Detector
  import opened Arithmetic
  import Template

  /** `max_repeats_for_len`. */
  function MaxRepeats(stamp: string, maxChars: nat): nat {
    if stamp == "" then 0 else (maxChars + 1) / (|stamp| + 1)
  }

  /** Exactly the repetitions up to `MaxRepeats` fit. */
  lemma JoinFits(stamp: string, n: nat, maxChars: nat)
    requires n >= 1 && stamp != ""
    ensures |Join(stamp, n)| <= maxChars <==> n <= MaxRepeats(stamp, maxChars)
  {
    JoinLength(stamp, n);
    assert n * (|stamp| + 1) == n * |stamp| + n;
    DivisionBound(n, |stamp| + 1, maxChars + 1);
  }

  /** `render_send_template`. */
  function RenderSend(config: BotConfig, count: nat, report: Report): Option<string> {
    match Render(config.sendTemplate, count, config.stampText, report.matchedBackend, FirstReading(report))
    case None => None
    case Some(expanded) =>
      var capped := Take(expanded, config.maxSendChars);
      if capped == "" then None else Some(capped)
  }

  method RenderSendTemplate(config: BotConfig, count: nat, report: Report) returns (r: Option<string>)
    ensures r == RenderSend(config, count, report)
    ensures r.Some? ==> 0 < |r.value| <= config.maxSendChars && !Contains(r.value, "${")
  {
    var expanded := RenderTemplate(
      config.sendTemplate, count, config.stampText, report.matchedBackend, FirstReading(report));
    if expanded == None {
      return None;
    }
    var capped := Take(expanded.value, config.maxSendChars);
    Template.NoOpenIff(expanded.value);
    Template.NoOpenIff(capped);
    r := if capped == "" then None else Some(capped);
  }

  // The number of repetitions asked of the template.
  function Repeats(config: BotConfig, total: nat): nat {
    var fitting := MaxRepeats(config.stampText, config.maxSendChars);
    var limit := if fitting < 1 then 1 else fitting;
    if config.Capped(total) < limit then config.Capped(total) else limit
  }

  /** `analyze_message_with_detector`, given the detector's report. */
  function Analyze(content: string, authorIsBot: bool, config: BotConfig, report: Report): BotAction {
    if authorIsBot then Noop
    else if report.specialPhraseHit || Contains(content, config.specialPhrase) then SendMessage(config.stampText)
    else if report.totalCount == 0 then Noop
    else if config.Capped(report.totalCount) == 1 then config.AsReact()
    else
      var repeats := Repeats(config, report.totalCount);
      ApplyPolicy(SendMessage(SentText(config, repeats, report)), config)
  }

  // `render_send_template(..).unwrap_or_else(..)`.
  function SentText(config: BotConfig, repeats: nat, report: Report): string {
    match RenderSend(config, repeats, report)
    case Some(rendered) => rendered
    case None => Join(config.stampText, repeats)
  }

  /** With the default template and a clean stamp that fits, whole stamps are sent: as many as were
      counted, bounded by the cap and by what fits, and nothing is cut off. */
  lemma WholeStamps(content: string, config: BotConfig, report: Report)
    requires config.sendTemplate == "${stamp}" && config.actionPolicy == ReactOrSend
    requires Sanitise(config.stampText) == config.stampText && config.stampText != ""
    requires |config.stampText| <= config.maxSendChars
    requires !report.specialPhraseHit && !Contains(content, config.specialPhrase)
    requires config.Capped(report.totalCount) >= 2
    ensures var n := Repeats(config, report.totalCount);
            && Analyze(content, false, config, report) == SendMessage(Join(config.stampText, n))
            && 1 <= n <= config.Capped(report.totalCount)
            && |Join(config.stampText, n)| <= config.maxSendChars
            && (n < config.Capped(report.totalCount) ==> |Join(config.stampText, n + 1)| > config.maxSendChars)
  {
    hide Render, Join, Sanitise, Contains, MaxRepeats, Repeats;
    var stamp, n := config.stampText, Repeats(config, report.totalCount);
    RepeatsFit(config, report.totalCount);
    OneStamp(stamp);
    StampTemplateRepeats(n, stamp, report.matchedBackend, FirstReading(report));
    JoinPrefix(stamp, 1, n);
  }

  /** As many repetitions as are allowed and fit, but at least one, and one of nothing. */
  lemma RepeatsFit(config: BotConfig, total: nat)
    requires config.Capped(total) >= 1
    ensures var (n, stamp) := (Repeats(config, total), config.stampText);
            && 1 <= n <= config.Capped(total) && (stamp == "" ==> n == 1)
            && (n > 1 ==> |Join(stamp, n)| <= config.maxSendChars)
            && (n < config.Capped(total) && stamp != "" ==> |Join(stamp, n + 1)| > config.maxSendChars)
  {
    var n := Repeats(config, total);
    if config.stampText != "" {
      JoinFits(config.stampText, n, config.maxSendChars);
      JoinFits(config.stampText, n + 1, config.maxSendChars);
    }
  }

  // ---------- what the direct path does ----------

  predicate IsPhrase(content: string, config: BotConfig, report: Report) {
    report.specialPhraseHit || Contains(content, config.specialPhrase)
  }

  /** When the direct path sends, reacts or does nothing, for every message and configuration. A special
      phrase is answered with the stamp whatever the action policy says. */
  lemma ActsExactly(content: string, authorIsBot: bool, config: BotConfig, report: Report)
    ensures var action := Analyze(content, authorIsBot, config, report);
            var phrase := report.specialPhraseHit || Contains(content, config.specialPhrase);
            var several := report.totalCount >= 2 && config.maxCountCap >= 2;
            && (action.SendMessage? <==> !authorIsBot && (phrase || (several && config.actionPolicy == ReactOrSend)))
            && (action.React? <==> && !authorIsBot && !phrase && report.totalCount >= 1
                                   && (!several || config.actionPolicy == ReactOnly))
            && (action.React? ==> action == React(
                  config.reaction.emojiId, config.reaction.emojiName, config.reaction.animated))
            && (action.SendMessage? && phrase ==> action.content == config.stampText)
            && (action.SendMessage? && !phrase ==>
                  action.content == DirectMessage(config, Repeats(config, report.totalCount), report))
  {
    hide SentText, DirectMessage, Contains, Join, Repeats;
    TextSent(config, Repeats(config, report.totalCount), report);
  }

  lemma TextSent(config: BotConfig, n: nat, report: Report)
    ensures SentText(config, n, report) == DirectMessage(config, n, report)
  {
    hide Render, Join;
  }

  /** The rendered template cut to the limit, or the plain row of stamps when nothing comes out of it. */
  function DirectMessage(config: BotConfig, n: nat, report: Report): string {
    var rendered := Render(config.sendTemplate, n, config.stampText, report.matchedBackend, FirstReading(report));
    if rendered.Some? && Take(rendered.value, config.maxSendChars) != "" then Take(rendered.value, config.maxSendChars)
    else Join(config.stampText, n)
  }

  // ---------- what is sent raw ----------

  /** The text that is sent comes out of the template; otherwise it is the stamp or a row of stamps as
      configured, neither sanitised nor cut. */
  predicate IsRendered(content: string, config: BotConfig, report: Report) {
    && !IsPhrase(content, config, report)
    && RenderSend(config, Repeats(config, report.totalCount), report).Some?
  }

  lemma RenderedIsBounded(config: BotConfig, count: nat, report: Report)
    requires RenderSend(config, count, report).Some?
    ensures var text := RenderSend(config, count, report).value;
            |text| <= config.maxSendChars && !Contains(text, "${")
  {
    hide Template.Substitute, Contains, Join;
    var (backend, reading) := (report.matchedBackend, FirstReading(report));
    var expanded := Render(config.sendTemplate, count, config.stampText, backend, reading);
    RenderedHasNoOpen(config.sendTemplate, count, config.stampText, backend, reading);
    Template.NoOpenIff(expanded.value);
    Template.NoOpenIff(RenderSend(config, count, report).value);
  }

  lemma RawRow(config: BotConfig, total: nat)
    requires config.Capped(total) >= 1
    ensures var row := Join(config.stampText, Repeats(config, total));
            && (|row| <= config.maxSendChars <==> |config.stampText| <= config.maxSendChars)
            && (Contains(row, "${") <==> Contains(config.stampText, "${"))
  {
    hide Contains;
    var stamp, n := config.stampText, Repeats(config, total);
    Template.NoOpenIff(stamp);
    Template.NoOpenIff(Join(stamp, n));
    JoinPrefix(stamp, 1, n);
    if Template.NoOpen(stamp) {
      JoinHasNoOpen(stamp, n);
    }
    if stamp != "" {
      JoinFits(stamp, 1, config.maxSendChars);
      JoinFits(stamp, n, config.maxSendChars);
    }
  }

  /** A text sent directly is within the limit exactly when it was rendered or the stamp is within it, and
      free of opening marks exactly when it was rendered or the stamp is. */
  lemma SentDirectlyExactly(content: string, authorIsBot: bool, config: BotConfig, report: Report)
    requires Analyze(content, authorIsBot, config, report).SendMessage?
    ensures var text := Analyze(content, authorIsBot, config, report).content;
            && (|text| <= config.maxSendChars <==>
                IsRendered(content, config, report) || |config.stampText| <= config.maxSendChars)
            && (!Contains(text, "${") <==> IsRendered(content, config, report) || !Contains(config.stampText, "${"))
  {
    hide RenderSend, Contains, Join, Repeats;
    if !IsPhrase(content, config, report) {
      var n := Repeats(config, report.totalCount);
      if RenderSend(config, n, report).Some? {
        RenderedIsBounded(config, n, report);
      } else {
        RawRow(config, report.totalCount);
      }
    }
  }

  lemma RowTooLong(config: BotConfig, total: nat)
    requires config.Capped(total) >= 1 && |config.stampText| > config.maxSendChars
    ensures Join(config.stampText, Repeats(config, total)) == config.stampText
  {
    hide Join;
    OneStamp(config.stampText);
    JoinPrefix(config.stampText, 1, Repeats(config, total));
    RepeatsFit(config, total);
  }

  /** Under a validated configuration no text of more than 8000 characters is sent, rendered or not, and a
      reaction is one that Discord accepts. */
  lemma ValidatedIsBounded(content: string, authorIsBot: bool, config: BotConfig, report: Report)
    requires config.Validated()
    ensures var action := Analyze(content, authorIsBot, config, report);
            && (action.SendMessage? ==> |action.content| <= 8000)
            && (action.React? ==> action.emojiId != 0 && action.emojiName != "")
  {
    hide Join, Contains, Repeats, Template.Refusal, Render;
    var action := Analyze(content, authorIsBot, config, report);
    ActsExactly(content, authorIsBot, config, report);
    assert |config.stampText| <= 128;
    if action.SendMessage? {
      SentDirectlyExactly(content, authorIsBot, config, report);
      if |config.stampText| > config.maxSendChars && !IsPhrase(content, config, report) {
        RowTooLong(config, report.totalCount);
        TextSent(config, Repeats(config, report.totalCount), report);
        assert action.content == config.stampText || IsRendered(content, config, report);
      }
    }
  }
}
