/** The two paths from a message to an action: `analyze_message_with_detector` directly, and the
    governed one through the sandboxed analyzer and `compile_response`. When do they agree? */
module Agreement {
  import opened Strings
  import opened SandboxHost
  import opened SandboxAbi
  import opened Bot
  import opened Rendering
  import opened Detector
  import opened ResponseCompiler
  import opened Arithmetic
  import OoCounter
  import PureAnalyzer
  import Utf8
  import Template

  // One special phrase and the three default patterns.
  function PolicyOf(bot: BotConfig): Policy { Policy(DEFAULT_PATTERNS, [bot.specialPhrase]) }

  function ReportOf(content: string, bot: BotConfig, tokens: TokenScan): Report {
    Detect(content, PolicyOf(bot), tokens)
  }

  // The default template and policy, with a reaction and a phrase.
  predicate DefaultShape(bot: BotConfig) {
    && bot.sendTemplate == "${stamp}" && bot.actionPolicy == ReactOrSend
    && bot.ReactionValid() && bot.specialPhrase != ""
  }

  // And a message the guest accepts and can count in 32 bits.
  predicate Readable(content: string, bot: BotConfig, tokens: TokenScan) {
    && DefaultShape(bot)
    && |Utf8.Encode(content)| <= 32768
    && OoCounter.OoCount(content) + tokens.hits <= 2147483647
  }

  /** The configurations and messages for which the comparison is made: the stamp is one that sanitising
      leaves alone, too. `AgreementBeyond` treats other stamps and longer messages. */
  predicate ComparableBot(bot: BotConfig) {
    DefaultShape(bot) && Sanitise(bot.stampText) == bot.stampText
  }

  predicate Comparable(content: string, bot: BotConfig, tokens: TokenScan) {
    Readable(content, bot, tokens) && ComparableBot(bot)
  }

  function Direct(content: string, bot: BotConfig, tokens: TokenScan): BotAction {
    PureAnalyzer.Analyze(content, false, bot, ReportOf(content, bot, tokens))
  }

  // What the sandbox answers, and what is compiled from it in Normal mode without suspicion.
  function AnswerTo(content: string, report: Report): Proposal {
    Answer(content, report.kanjiHits, report.specialPhraseHit)
  }

  function GovernedContext(content: string, bot: BotConfig, maxSendChars: nat, report: Report): Context {
    Context(AnswerTo(content, report), Normal, NotSuspicious, bot, maxSendChars, report.matchedBackend,
            FirstReading(report), bot.maxCountCap, report.totalCount)
  }

  function Governed(content: string, bot: BotConfig, maxSendChars: nat, tokens: TokenScan): BotAction {
    Compile(GovernedContext(content, bot, maxSendChars, ReportOf(content, bot, tokens)))
  }

  // ---------- what both paths count ----------

  lemma ReportMeans(content: string, bot: BotConfig, tokens: TokenScan)
    requires Readable(content, bot, tokens)
    ensures var report := ReportOf(content, bot, tokens);
            && report.totalCount == OoCounter.OoCount(content) + tokens.hits
            && report.kanjiHits == tokens.hits
            && (report.specialPhraseHit <==> Contains(content, bot.specialPhrase))
  {
    DefaultReport(content, bot.specialPhrase, tokens);
  }

  // ---------- the texts ----------

  function JoinedLength(stamp: string, n: nat): int { n * (|stamp| + 1) - 1 }

  // The repetitions the direct path takes out of `k`.
  function Fitting(bot: BotConfig, k: nat): nat {
    Min(k, Max(PureAnalyzer.MaxRepeats(bot.stampText, bot.maxSendChars), 1))
  }

  function DirectText(bot: BotConfig, k: nat): string {
    var whole := Join(bot.stampText, Fitting(bot, k));
    var capped := Take(whole, bot.maxSendChars);
    if capped == "" then whole else capped
  }

  function GovernedText(bot: BotConfig, maxSendChars: nat, k: nat): string {
    Take(Join(bot.stampText, Min(k, 255)), maxSendChars)
  }

  function DirectLength(bot: BotConfig, k: nat): int {
    var whole := JoinedLength(bot.stampText, Fitting(bot, k));
    if bot.maxSendChars == 0 || whole <= bot.maxSendChars then whole else bot.maxSendChars
  }

  function GovernedLength(bot: BotConfig, maxSendChars: nat, k: nat): int {
    var whole := JoinedLength(bot.stampText, Min(k, 255));
    if whole <= maxSendChars then whole else maxSendChars
  }

  lemma TextLengths(bot: BotConfig, maxSendChars: nat, k: nat)
    requires k >= 1
    ensures |DirectText(bot, k)| == DirectLength(bot, k)
    ensures |GovernedText(bot, maxSendChars, k)| == GovernedLength(bot, maxSendChars, k)
  {
    LengthOfJoin(bot.stampText, Fitting(bot, k));
    LengthOfJoin(bot.stampText, Min(k, 255));
  }

  lemma LengthOfJoin(stamp: string, n: nat)
    requires n >= 1
    ensures |Join(stamp, n)| == JoinedLength(stamp, n)
  {
    JoinLength(stamp, n);
    assert n * (|stamp| + 1) == n * |stamp| + n;
  }

  lemma PrefixesOfOne(p: string, q: string, s: string)
    requires p <= s && q <= s
    ensures p == q <==> |p| == |q|
  {
  }

  /** Both texts begin the same long row of stamps, so only their lengths can differ. */
  lemma TextsAgree(bot: BotConfig, maxSendChars: nat, k: nat)
    requires k >= 1
    ensures DirectText(bot, k) == GovernedText(bot, maxSendChars, k)
            <==> DirectLength(bot, k) == GovernedLength(bot, maxSendChars, k)
  {
    TextLengths(bot, maxSendChars, k);
    JoinPrefix(bot.stampText, Fitting(bot, k), k);
    JoinPrefix(bot.stampText, Min(k, 255), k);
    PrefixesOfOne(DirectText(bot, k), GovernedText(bot, maxSendChars, k), Join(bot.stampText, k));
  }

  lemma BlankWhenCut(stamp: string, n: nat, limit: nat)
    requires n >= 1
    ensures IsBlank(Take(Join(stamp, n), limit)) <==> IsBlank(Take(stamp, limit))
  {
    var row := Join(stamp, n);
    JoinPrefix(stamp, 1, n);
    if limit <= |stamp| {
      assert Take(row, limit) == Take(stamp, limit);
    } else {
      JoinBlank(stamp, n);
      assert stamp <= Take(row, limit) <= row;
    }
  }

  // ---------- case by case ----------

  lemma AgreeOnPhrase(content: string, bot: BotConfig, maxSendChars: nat, tokens: TokenScan)
    requires Readable(content, bot, tokens) && Contains(content, bot.specialPhrase)
    ensures Direct(content, bot, tokens) == SendMessage(bot.stampText)
    ensures Governed(content, bot, maxSendChars, tokens) == Direct(content, bot, tokens)
            <==> !IsBlank(Take(bot.stampText, maxSendChars)) && |bot.stampText| <= maxSendChars
  {
    ReportMeans(content, bot, tokens);
  }

  lemma AgreeOnFew(content: string, bot: BotConfig, maxSendChars: nat, tokens: TokenScan)
    requires Readable(content, bot, tokens) && !Contains(content, bot.specialPhrase)
    requires bot.Capped(ReportOf(content, bot, tokens).totalCount) <= 1
    ensures Governed(content, bot, maxSendChars, tokens) == Direct(content, bot, tokens)
  {
    ReportMeans(content, bot, tokens);
  }

  lemma RowSent(content: string, bot: BotConfig, report: Report)
    requires bot.sendTemplate == "${stamp}" && Sanitise(bot.stampText) == bot.stampText
    requires bot.actionPolicy == ReactOrSend
    requires !report.specialPhraseHit && !Contains(content, bot.specialPhrase) && bot.Capped(report.totalCount) >= 2
    ensures PureAnalyzer.Analyze(content, false, bot, report)
         == SendMessage(DirectText(bot, bot.Capped(report.totalCount)))
  {
    hide Render, Sanitise, Join, Contains, PureAnalyzer.MaxRepeats;
    var n := Fitting(bot, bot.Capped(report.totalCount));
    StampTemplateRepeats(n, bot.stampText, report.matchedBackend, FirstReading(report));
    assert PureAnalyzer.Repeats(bot, report.totalCount) == n;
  }

  lemma StampsSentDirectly(content: string, bot: BotConfig, tokens: TokenScan)
    requires Comparable(content, bot, tokens) && !Contains(content, bot.specialPhrase)
    requires bot.Capped(ReportOf(content, bot, tokens).totalCount) >= 2
    ensures Direct(content, bot, tokens)
         == SendMessage(DirectText(bot, bot.Capped(ReportOf(content, bot, tokens).totalCount)))
  {
    ReportMeans(content, bot, tokens);
    RowSent(content, bot, ReportOf(content, bot, tokens));
  }

  lemma ManyAnswered(content: string, bot: BotConfig, maxSendChars: nat, tokens: TokenScan)
    requires Readable(content, bot, tokens) && !Contains(content, bot.specialPhrase)
    requires bot.Capped(ReportOf(content, bot, tokens).totalCount) >= 2
    ensures var (report, c) := (ReportOf(content, bot, tokens),
                                GovernedContext(content, bot, maxSendChars, ReportOf(content, bot, tokens)));
            && c.proposal.SendStamped? && StampRepeats(c) == Min(bot.Capped(report.totalCount), 255)
  {
    ReportMeans(content, bot, tokens);
  }

  // What the compiler intends with a row of stamps, and what it does with such an intention.
  lemma RowIntended(c: Context, row: string)
    requires c.proposal.SendStamped? && StampRepeats(c) >= 2
    requires Render(c.bot.sendTemplate, StampRepeats(c), c.bot.stampText, c.matchedBackend, c.matchedReading) == Some(row)
    ensures IntendedText(c) == if IsBlank(row) then None else Some(row)
    ensures !ProposalToAction(c).React?
  {
  }

  lemma IntendedCompiled(c: Context)
    requires SendingOpen(c) && !ProposalToAction(c).React?
    ensures var text := IntendedText(c);
            Compile(c) == if text.Some? && !IsBlank(Take(text.value, c.maxSendChars))
                          then SendMessage(Take(text.value, c.maxSendChars)) else BotAction.Noop
  {
    SendExactly(c);
    ReactExactly(c);
  }

  lemma BlankRowsStayBlank(row: string, limit: nat)
    ensures IsBlank(row) ==> IsBlank(Take(row, limit))
  {
  }

  lemma StampsSent(content: string, bot: BotConfig, maxSendChars: nat, tokens: TokenScan)
    requires Comparable(content, bot, tokens) && !Contains(content, bot.specialPhrase)
    requires bot.Capped(ReportOf(content, bot, tokens).totalCount) >= 2
    ensures Governed(content, bot, maxSendChars, tokens) ==
            if IsBlank(Take(bot.stampText, maxSendChars)) then BotAction.Noop
            else SendMessage(GovernedText(bot, maxSendChars, bot.Capped(ReportOf(content, bot, tokens).totalCount)))
  {
    var c := GovernedContext(content, bot, maxSendChars, ReportOf(content, bot, tokens));
    ManyAnswered(content, bot, maxSendChars, tokens);
    StampTemplateRepeats(StampRepeats(c), bot.stampText, c.matchedBackend, c.matchedReading);
    RowIntended(c, Join(bot.stampText, StampRepeats(c)));
    IntendedCompiled(c);
    BlankRowsStayBlank(Join(bot.stampText, StampRepeats(c)), maxSendChars);
    BlankWhenCut(bot.stampText, StampRepeats(c), maxSendChars);
  }

  /** When the two paths agree on a message: always on fewer than two stamps; on a special phrase when
      the stamp fits the governor's limit; on more stamps exactly when both limits cut the row of
      stamps at the same length; and with a visible stamp only. */
  lemma AgreeExactly(content: string, bot: BotConfig, maxSendChars: nat, tokens: TokenScan)
    requires Comparable(content, bot, tokens)
    ensures var k := bot.Capped(ReportOf(content, bot, tokens).totalCount);
            Governed(content, bot, maxSendChars, tokens) == Direct(content, bot, tokens) <==>
            if Contains(content, bot.specialPhrase)
            then !IsBlank(Take(bot.stampText, maxSendChars)) && |bot.stampText| <= maxSendChars
            else k <= 1 || (!IsBlank(Take(bot.stampText, maxSendChars))
                            && DirectLength(bot, k) == GovernedLength(bot, maxSendChars, k))
  {
    var k := bot.Capped(ReportOf(content, bot, tokens).totalCount);
    if Contains(content, bot.specialPhrase) {
      AgreeOnPhrase(content, bot, maxSendChars, tokens);
    } else if k <= 1 {
      AgreeOnFew(content, bot, maxSendChars, tokens);
    } else {
      StampsSentDirectly(content, bot, tokens);
      StampsSent(content, bot, maxSendChars, tokens);
      TextsAgree(bot, maxSendChars, k);
    }
  }

  // ---------- configurations ----------

  lemma LongerRow(stamp: string, a: nat, b: nat)
    requires a <= b
    ensures JoinedLength(stamp, a) <= JoinedLength(stamp, b)
  {
    MulMonotone(a, b, |stamp| + 1);
  }

  /** It is enough to look at the largest count: agreeing there means agreeing on all smaller ones. */
  lemma LargestCountDecides(bot: BotConfig, maxSendChars: nat, k: nat, largest: nat)
    requires 1 <= k <= largest
    requires DirectLength(bot, largest) == GovernedLength(bot, maxSendChars, largest)
    ensures DirectLength(bot, k) == GovernedLength(bot, maxSendChars, k)
  {
    hide JoinedLength, PureAnalyzer.MaxRepeats;
    var stamp, most := bot.stampText, Max(PureAnalyzer.MaxRepeats(bot.stampText, bot.maxSendChars), 1);
    LongerRow(stamp, k, largest);
    LongerRow(stamp, Min(k, 255), Max(k, 255));
    LongerRow(stamp, Min(largest, 255), Max(largest, 255));
    LongerRow(stamp, Min(k, most), Max(k, most));
    LongerRow(stamp, Min(largest, most), Max(largest, most));
  }

  /** The configurations that agree on every message: a visible stamp within the governor's limit, and
      limits that cut the longest allowed row at the same length. */
  predicate Consistent(bot: BotConfig, maxSendChars: nat) {
    && !IsBlank(bot.stampText) && |bot.stampText| <= maxSendChars
    && (bot.maxCountCap <= 1
        || DirectLength(bot, bot.maxCountCap) == GovernedLength(bot, maxSendChars, bot.maxCountCap))
  }

  lemma ConsistentAgrees(content: string, bot: BotConfig, maxSendChars: nat, tokens: TokenScan)
    requires Comparable(content, bot, tokens) && Consistent(bot, maxSendChars)
    ensures Governed(content, bot, maxSendChars, tokens) == Direct(content, bot, tokens)
  {
    hide Governed, Direct, DirectLength, GovernedLength, Sanitise, Contains, ReportOf;
    AgreeExactly(content, bot, maxSendChars, tokens);
    var k := bot.Capped(ReportOf(content, bot, tokens).totalCount);
    if k >= 2 {
      LargestCountDecides(bot, maxSendChars, k, bot.maxCountCap);
    }
  }

  lemma PhraseInItself(phrase: string)
    ensures Contains(phrase, phrase)
  {
  }

  lemma NothingInNothing(phrase: string)
    requires phrase != ""
    ensures !Contains("", phrase) && OoCounter.OoCount("") == 0 && Utf8.Encode("") == []
  {
  }

  // The phrase alone is a message that shows whether the stamp is sent.
  lemma PhraseTells(bot: BotConfig, maxSendChars: nat)
    requires ComparableBot(bot) && |Utf8.Encode(bot.specialPhrase)| <= 32768
    ensures var (content, tokens) := (bot.specialPhrase, TokenScan([], 0));
            && Comparable(content, bot, tokens)
            && (Governed(content, bot, maxSendChars, tokens) == Direct(content, bot, tokens) <==>
                !IsBlank(bot.stampText) && |bot.stampText| <= maxSendChars)
  {
    hide Governed, Direct, DirectLength, GovernedLength, Sanitise, Contains, ReportOf;
    OoCounter.OoCountBounds(bot.specialPhrase);
    PhraseInItself(bot.specialPhrase);
    AgreeExactly(bot.specialPhrase, bot, maxSendChars, TokenScan([], 0));
  }

  // An empty message with as many token hits as are allowed shows where the longest row is cut.
  lemma LongestRowTells(bot: BotConfig, maxSendChars: nat)
    requires ComparableBot(bot) && 2 <= bot.maxCountCap <= 2147483647
    ensures var (content, tokens) := ("", TokenScan([], bot.maxCountCap));
            && Comparable(content, bot, tokens)
            && (Governed(content, bot, maxSendChars, tokens) == Direct(content, bot, tokens) ==>
                  DirectLength(bot, bot.maxCountCap) == GovernedLength(bot, maxSendChars, bot.maxCountCap))
  {
    hide Governed, Direct, DirectLength, GovernedLength, Sanitise, Contains, ReportOf;
    var tokens := TokenScan([], bot.maxCountCap);
    NothingInNothing(bot.specialPhrase);
    ReportMeans("", bot, tokens);
    AgreeExactly("", bot, maxSendChars, tokens);
  }

  /** An inconsistent configuration is told apart by one of two messages: the phrase, or an empty message
      with as many token hits as the cap allows. */
  lemma InconsistentDisagrees(bot: BotConfig, maxSendChars: nat) returns (content: string, tokens: TokenScan)
    requires ComparableBot(bot) && |Utf8.Encode(bot.specialPhrase)| <= 32768 && bot.maxCountCap <= 2147483647
    requires !Consistent(bot, maxSendChars)
    ensures Comparable(content, bot, tokens)
    ensures Governed(content, bot, maxSendChars, tokens) != Direct(content, bot, tokens)
  {
    hide Governed, Direct, DirectLength, GovernedLength, IsBlank, Comparable;
    if !IsBlank(bot.stampText) && |bot.stampText| <= maxSendChars {
      content, tokens := "", TokenScan([], bot.maxCountCap);
      LongestRowTells(bot, maxSendChars);
    } else {
      content, tokens := bot.specialPhrase, TokenScan([], 0);
      PhraseTells(bot, maxSendChars);
    }
  }

  ghost predicate AgreesEverywhere(bot: BotConfig, maxSendChars: nat) {
    forall content, tokens ::
      Comparable(content, bot, tokens) ==>
        Governed(content, bot, maxSendChars, tokens) == Direct(content, bot, tokens)
  }

  /** The configurations on which the two paths agree for every message are exactly the consistent ones. */
  lemma ConfigurationAgreesExactly(bot: BotConfig, maxSendChars: nat)
    requires ComparableBot(bot) && |Utf8.Encode(bot.specialPhrase)| <= 32768 && bot.maxCountCap <= 2147483647
    ensures AgreesEverywhere(bot, maxSendChars) <==> Consistent(bot, maxSendChars)
  {
    hide Governed, Direct, Comparable, Consistent;
    if Consistent(bot, maxSendChars) {
      forall content, tokens | Comparable(content, bot, tokens)
        ensures Governed(content, bot, maxSendChars, tokens) == Direct(content, bot, tokens)
      {
        ConsistentAgrees(content, bot, maxSendChars, tokens);
      }
    } else {
      var content, tokens := InconsistentDisagrees(bot, maxSendChars);
    }
  }

  /** In particular those with a cap of at most 255 whose longest row fits both limits. */
  lemma RoomyIsConsistent(bot: BotConfig, maxSendChars: nat)
    requires !IsBlank(bot.stampText) && 1 <= bot.maxCountCap <= 255
    requires JoinedLength(bot.stampText, bot.maxCountCap) <= bot.maxSendChars
    requires JoinedLength(bot.stampText, bot.maxCountCap) <= maxSendChars
    ensures Consistent(bot, maxSendChars)
  {
    LongerRow(bot.stampText, 1, bot.maxCountCap);
    LengthOfJoin(bot.stampText, bot.maxCountCap);
    PureAnalyzer.JoinFits(bot.stampText, bot.maxCountCap, bot.maxSendChars);
  }

  // ---------- the shipped configuration ----------

  const DEFAULT_PHRASE: string := "\U{3053}\U{308C}\U{306F}\U{304A}\U{304A}"

  const DEFAULT_STAMP := "<:Omilfy:1489695886773587978>"

  const DEFAULT_BOT := BotConfig(
    DEFAULT_PHRASE, DEFAULT_STAMP, ReactionConfig(1489695886773587978, "Omilfy", false), 48, 1900, "${stamp}",
    ReactOrSend)

  const DEFAULT_MAX_SEND_CHARS := 1900

  lemma DefaultStampIsPlain()
    ensures forall c :: c in DEFAULT_STAMP ==> !IsControl(c) && c != '$' && c != '}'
  {
  }

  lemma DefaultStampIsSanitary()
    ensures Sanitise(DEFAULT_STAMP) == DEFAULT_STAMP
  {
    DefaultStampIsPlain();
    PlainIsSanitary(DEFAULT_STAMP);
  }

  /** The shipped configuration is one on which both paths agree, whatever the message. */
  lemma ShippedIsConsistent()
    ensures Consistent(DEFAULT_BOT, DEFAULT_MAX_SEND_CHARS)
  {
    assert DEFAULT_STAMP[0] in DEFAULT_STAMP;
    RoomyIsConsistent(DEFAULT_BOT, DEFAULT_MAX_SEND_CHARS);
  }

  lemma ShippedIsComparable(content: string, tokens: TokenScan)
    requires |Utf8.Encode(content)| <= 32768
    requires OoCounter.OoCount(content) + tokens.hits <= 2147483647
    ensures Comparable(content, DEFAULT_BOT, tokens)
  {
    DefaultStampIsSanitary();
  }

  // ---------- a configuration that disagrees ----------

  // The shipped one with a cap of 64: the row of 64 stamps does not fit, the direct path sends 63 whole
  // ones and the governed path cuts the last.
  const TIGHT_BOT := DEFAULT_BOT.(maxCountCap := 64)

  lemma {:induction false} AsciiEncodes(s: string)
    ensures IsAscii(s) <==> |Utf8.Encode(s)| == |s|
  {
    if s != [] {
      var rest := s[1..];
      assert s[0] in s && forall i :: 0 <= i < |rest| ==> rest[i] == s[i + 1] && s[i + 1] in s;
      AsciiEncodes(rest);
      assert forall c :: c in s ==> c == s[0] || c in rest;
    }
  }

  lemma DefaultTextsAreAscii()
    ensures IsAscii(DEFAULT_STAMP) && IsAscii("${stamp}") && IsAscii("Omilfy")
  {
  }

  lemma TightIsValidated()
    ensures TIGHT_BOT.Validated()
  {
    hide Utf8.Encode, IsAscii, Template.Parse;
    DefaultTextsAreAscii();
    AsciiEncodes(DEFAULT_STAMP);
    AsciiEncodes("${stamp}");
    AsciiEncodes("Omilfy");
    StampTemplateParses();
  }

  lemma TightLengths()
    ensures DirectLength(TIGHT_BOT, 64) == 1889
    ensures GovernedLength(TIGHT_BOT, DEFAULT_MAX_SEND_CHARS, 64) == 1900
  {
  }

  lemma TightIsComparable()
    ensures ComparableBot(TIGHT_BOT)
  {
    DefaultStampIsSanitary();
  }

  /** Start-up validation does not ensure agreement: this configuration is accepted, and an empty message
      with 64 token hits leads to different actions. */
  lemma ValidatedCanDisagree()
    ensures TIGHT_BOT.Validated()
    ensures var tokens := TokenScan([], 64);
            && Comparable("", TIGHT_BOT, tokens)
            && Governed("", TIGHT_BOT, DEFAULT_MAX_SEND_CHARS, tokens) != Direct("", TIGHT_BOT, tokens)
  {
    hide Governed, Direct, Comparable, ComparableBot, DirectLength, GovernedLength, BotConfig.Validated;
    TightIsValidated();
    TightIsComparable();
    TightLengths();
    LongestRowTells(TIGHT_BOT, DEFAULT_MAX_SEND_CHARS);
  }
}
