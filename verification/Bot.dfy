/** The bot's configuration and its possible actions (src/app/analyze_message.rs), with the bounds
    that start-up validation puts on them (src/config.rs). */
module Bot {
  import opened Strings
  import Utf8
  import Template

  datatype BotAction =
    | Noop
    | React(emojiId: nat, emojiName: string, animated: bool)
    | SendMessage(content: string)

  datatype ActionPolicy = ReactOrSend | ReactOnly | NoOutbound

  datatype ReactionConfig = ReactionConfig(emojiId: nat, emojiName: string, animated: bool)

  datatype BotConfig = BotConfig(
    specialPhrase: string,
    stampText: string,
    reaction: ReactionConfig,
    maxCountCap: nat,
    maxSendChars: nat,
    sendTemplate: string,
    actionPolicy: ActionPolicy)
  {
    function AsReact(): BotAction {
      React(reaction.emojiId, reaction.emojiName, reaction.animated)
    }

    predicate ReactionValid() {
      reaction.emojiId != 0 && reaction.emojiName != ""
    }

    // The bot section of `validate_config`; lengths are in bytes.
    predicate Validated() {
      && 1 <= |Utf8.Encode(stampText)| <= 128
      && 1 <= |Utf8.Encode(sendTemplate)| <= 512
      && 1 <= |Utf8.Encode(reaction.emojiName)| <= 64
      && reaction.emojiId != 0
      && 1 <= maxCountCap <= 4096
      && 1 <= maxSendChars <= 8000
      && Template.Refusal(sendTemplate) == None
    }

    // `total.min(cap.max(1))`.
    function Capped(total: nat): (r: nat)
      ensures r <= total && r <= (if maxCountCap < 1 then 1 else maxCountCap)
      ensures r == total || r == (if maxCountCap < 1 then 1 else maxCountCap)
    {
      var cap := if maxCountCap < 1 then 1 else maxCountCap;
      if total < cap then total else cap
    }
  }

  datatype BotRefusal =
    | StampLength
    | TemplateLength
    | EmojiNameLength
    | EmojiIdIsZero
    | CountCap
    | SendChars
    | BadTemplate(reason: Template.Parsed)

  /** The bot's part of `validate_config`: what is accepted, and the first thing that is wrong otherwise. */
  method ValidateBot(bot: BotConfig) returns (refusal: Option<BotRefusal>)
    ensures refusal == None <==> bot.Validated()
    ensures refusal == None <==>
            && bot.stampText != "" && |Utf8.Encode(bot.stampText)| <= 128
            && bot.sendTemplate != "" && |Utf8.Encode(bot.sendTemplate)| <= 512
            && bot.reaction.emojiName != "" && |Utf8.Encode(bot.reaction.emojiName)| <= 64
            && bot.reaction.emojiId != 0 && 0 < bot.maxCountCap <= 4096 && 0 < bot.maxSendChars <= 8000
            && Template.Refusal(bot.sendTemplate) == None
    ensures refusal == Some(StampLength) <==> bot.stampText == "" || |Utf8.Encode(bot.stampText)| > 128
    ensures refusal == Some(TemplateLength) ==> bot.sendTemplate == "" || |Utf8.Encode(bot.sendTemplate)| > 512
    ensures refusal == Some(EmojiNameLength) ==>
              bot.reaction.emojiName == "" || |Utf8.Encode(bot.reaction.emojiName)| > 64
    ensures refusal == Some(EmojiIdIsZero) ==> bot.reaction.emojiId == 0
    ensures refusal == Some(CountCap) ==> bot.maxCountCap == 0 || bot.maxCountCap > 4096
    ensures refusal == Some(SendChars) ==> bot.maxSendChars == 0 || bot.maxSendChars > 8000
    ensures refusal in {Some(StampLength), Some(TemplateLength), Some(EmojiNameLength), Some(EmojiIdIsZero),
                        Some(CountCap), Some(SendChars), None}
            || (Template.Refusal(bot.sendTemplate).Some?
                && refusal == Some(BadTemplate(Template.Refusal(bot.sendTemplate).value)))
  {
    var stamp, template, emoji :=
      |Utf8.Encode(bot.stampText)|, |Utf8.Encode(bot.sendTemplate)|, |Utf8.Encode(bot.reaction.emojiName)|;
    if bot.stampText == "" || stamp > 128 {
      return Some(StampLength);
    }
    if bot.sendTemplate == "" || template > 512 {
      return Some(TemplateLength);
    }
    if bot.reaction.emojiName == "" || emoji > 64 {
      return Some(EmojiNameLength);
    }
    if bot.reaction.emojiId == 0 {
      return Some(EmojiIdIsZero);
    }
    if bot.maxCountCap == 0 || bot.maxCountCap > 4096 {
      return Some(CountCap);
    }
    if bot.maxSendChars == 0 || bot.maxSendChars > 8000 {
      return Some(SendChars);
    }
    var reason := Template.ValidateTemplate(bot.sendTemplate);
    if reason.Some? {
      return Some(BadTemplate(reason.value));
    }
    return None;
  }

  /** `is_invalid_action`, in both places where it is defined. */
  predicate IsInvalid(action: BotAction) {
    match action
    case Noop => false
    case React(emojiId, emojiName, _) => emojiId == 0 || emojiName == ""
    case SendMessage(content) => IsBlank(content)
  }

  /** Messages of white space only, and reactions without an emoji. */
  lemma InvalidExactly(action: BotAction)
    ensures IsInvalid(action) <==>
            || (action.SendMessage? && forall c :: c in action.content ==> IsWhitespace(c))
            || (action.React? && (action.emojiId == 0 || action.emojiName == ""))
  {
  }

  /** `enforce_action_policy` and `apply_action_policy`. */
  function ApplyPolicy(action: BotAction, bot: BotConfig): BotAction {
    match bot.actionPolicy
    case ReactOrSend => action
    case ReactOnly => if action.SendMessage? then bot.AsReact() else action
    case NoOutbound => Noop
  }
}
