# Verified model of the oo-bot decision pipeline

The bot reads Discord messages, counts "oo" sequences in them and answers with a reaction or a row of
stamps. This project models the part of it that decides: the three counters that must agree, the
sandboxed analyzer and its wire format, the template engine, the two paths from a count to an action,
the governor that guards what leaves, the hash-chained audit log and the redaction of diagnostics. It
proves what the pieces promise each other, and what holds over every run of the governor.

`dafny verify dfyconfig.toml` checks everything.

## How to read it

Files follow the program. The layers build on each other:

1. **Text.** `Utf8` gives Unicode strings their bytes (section 3 of RFC 3629) and proves the code
   prefix-free; `Strings` holds the library functions the bot relies on; `Greedy` proves that counting
   non-overlapping hits from left to right finds the largest number of disjoint ones.
2. **One count, three ways.** `OoCounter` (a character iterator), `SandboxHost` (the WebAssembly byte
   scanner with wrapping 32-bit arithmetic, and the host side of a call), `Detector` (a sum of
   substring searches by bytes). All three compute the same number.
3. **From count to action.** `SandboxAbi`, `WireBits`, `Template`, `Rendering`, `SanitisingLaws`,
   `SubstitutionLaws` (when successive replacements are one substitution), `Bot`, `PureAnalyzer` (the
   direct path), `ResponseCompiler` (the governed path), and `Agreement`, which says when the two agree;
   `AgreementBeyond` does so for stamps that sanitising changes and for oversized messages.
4. **The governor.** One module per guard (`SlidingWindow`, `CircuitBreaker`, `RateLimiter`,
   `DuplicateGuard`, `Cooldown`, `SessionBudget`, `Mode`): a class with the fields of the source, each
   method proved against a function on its state, and lemmas relating that state to an unbounded
   history. `Governor` is the whole core as a state machine, `CoreGovernor.TrustedCore` the class whose
   methods are proved to perform exactly its steps, `Steps` what one step does.
5. **Runs.** A run is any sequence of atomic calls at non-decreasing times, as the mutex in
   src/infra/discord_handler.rs makes it; `Handler` keeps that run beside a shared core. `RunModes`,
   `RunDuplicates`, `RunPace`, `RunCooldowns`, `RunReasons`, `RunRecords` and `RunActions` prove properties
   of all runs of any length; histories are read off the recorded decisions. `GuildExample` builds one run
   under the shipped limits.
6. **The audit log.** `AuditStore` is the table with its methods, `AuditChain` its guarantees.
7. **Diagnostics.** `Redaction` is the code, `RedactionLaws` what it hides, `RedactingTwice` what a second
   redaction does, and `RedactedLines` what becomes of every line, for any list of keys and for the five.

Where a lemma says what a function means it does so in its own words and numbers, so that the bounds and
constants of the source can be read off the statements.

## What turned out otherwise than expected

- Both paths do not always agree. For the default template and action policy, a valid reaction, a
  special phrase, a stamp that sanitising leaves alone, and messages of at most 32768 bytes whose count
  fits in 32 bits, `Agreement.AgreeExactly` gives the exact condition for each message and
  `Agreement.ConfigurationAgreesExactly` the one for configurations. A stamp that is blank when cut to
  the governor's limit makes the direct path send what the governed path drops, and a cap above 255 or a
  row that does not fit can make them send different rows. Start-up validation does not exclude this:
  with the shipped configuration and a cap of 64 the direct path sends 63 whole stamps where the governed
  path cuts the last (`Agreement.ValidatedCanDisagree`). Outside two of these premises:
  `AgreementBeyond.UnsanitaryAgreesExactly` gives the condition for stamps that sanitising changes, and
  `AgreementBeyond.OversizedAgreesExactly` says that over 32768 bytes the paths agree exactly when the
  direct one finds neither phrase nor hit.
- `cooldown_allows` marks the guild before it looks at the global cooldown, so a message that is refused
  for the global cooldown alone still makes its guild wait (`Steps.RefusalExtendsGuildCooldown`).
  `GuildExample.UnansweredGuildWaits` is a run of two messages under the shipped limits after which a
  guild waits although none of its messages was answered.
- Sanitising a template value can put an opening mark together from its parts
  (`Rendering.SanitisingCanLeaveAnOpening`), exactly when `SanitisingLaws.OpeningIsLeftExactly` says. No
  rendered text contains an opening mark (`Rendering.RenderedHasNoOpen`), but that need not mean a
  refusal: a mark that a value and the text after it form together can be filled by a later replacement,
  so that the text sent is neither refused nor the intended one (`SubstitutionLaws.JoinedMarkCanBeFilled`). For
  templates without a closing brace in their literal text this cannot happen; they are refused exactly
  when the simultaneous substitution contains an opening mark (`SubstitutionLaws.RenderExactly`).
- The direct path sends the plain row of stamps when rendering is refused, uncut and not sanitised, so
  what it sends can be over the limit or contain an opening mark (`PureAnalyzer.SentDirectlyExactly`).
- The direct path answers a special phrase with the stamp whatever the action policy says, even under
  NoOutbound (`PureAnalyzer.ActsExactly`); the governed path does not (`ResponseCompiler.SendExactly`).
- The verifier's number of broken rows counts mismatches: a row with a wrong link and a wrong hash counts
  twice (`AuditChain.ReportExactly`).
- With a sandbox failure threshold of 0 the mode never returns to Normal by itself
  (`RunModes.ReturnsToNormal`).
- Redacting a redacted text can change it: each pass takes one carriage return off the end of a line.
  `RedactingTwice.RedactingAgain` says for which inputs.
- The repository's own README lists the breaker before the session budget in the order of mode
  decisions; the code looks at the budget first, and so does the model.

## Modelling choices

- Times are natural numbers of milliseconds and are parameters; durations are differences.
- Tokens of the bucket are real numbers. What accrues is counted up by the millisecond, and
  `RateLimiter.GainIsProduct` shows that this is seconds times rate.
- Shifts and masks of the wire format are written as arithmetic; `WireBits` proves them equal on all
  64-bit words in two's complement. The guest's `i32.add` wraps around explicitly.
- Counters of the governor saturate at 64 bits. `usize` saturates only in the detector's total.
- Byte offsets into templates and log lines are character positions; both searches look for ASCII marks,
  which sit on character boundaries.
- The iteration order of the duplicate cache is arbitrary: compaction keeps the newest entries and
  chooses freely among those of the same age.
- Code that the repository holds twice (sanitising, rendering, stamp repetition, the action policy, the
  check for invalid actions) is modelled once.
- SHA-256 in hexadecimal is a parameter of the audit log, an arbitrary function on texts. Tamper
  evidence asks only that it writes 64 hexadecimal digits, and concludes "the same, or here is a
  collision" between two texts that occur in the two tables.
- Tokenisation, the suspicion level and what the WebAssembly runtime itself may fail with are inputs.

## Model

| member | source | states |
|---|---|---|
| Utf8.DecodeAtStart | src/sandbox/host.rs:90-109 | any bytes that begin with an encoded character decode to it, its width and the rest, whatever follows: the encoding the guest receives is unambiguous |
| Utf8.FirstCharUnique | src/sandbox/host.rs:90-109 | the encoding is prefix-free, which is what lets byte searches stand for character searches |
| Utf8.PrefixAtBoundary | src/domain/detector.rs:191-212 | at a character boundary a byte prefix is exactly a character prefix |
| Greedy.CountIsMaximum | src/domain/oo_counter.rs:5-25 | left-to-right counting without overlap reaches, and never exceeds, the largest number of pairwise disjoint hits |
| OoCounter.CountOoSequences | src/domain/oo_counter.rs:5-30 | the iterator loop returns the largest number of disjoint pairs |
| OoCounter.OoCountBounds | src/domain/oo_counter.rs:5-25 | at most one hit for two characters, with equality on a text of ASCII o's in any case |
| WireBits.EncodingIsBitwise | src/sandbox/abi.rs:39-50 | shifting the kind left and or-ing the auxiliary value gives the bits of exactly the packed number |
| WireBits.DecodingIsBitwise | src/sandbox/abi.rs:52-56 | on every 64-bit word in two's complement, negative ones included, shifting right and masking give the model's kind and auxiliary value |
| SandboxAbi.PackingIsBitwise | src/sandbox/abi.rs:39-56 | on unsigned 64-bit vectors the shifts, ors and masks are product, quotient and remainder by 2^32 |
| SandboxAbi.Unpack | src/sandbox/abi.rs:39-56 | kind and auxiliary value both come back out of a packed word |
| SandboxAbi.WireWords | src/sandbox/abi.rs:5-50 | the word of every proposal, as a number |
| SandboxAbi.DecodeEncode | src/sandbox/abi.rs:39-77 | decoding after encoding is the identity on every proposal but a stamp count of 0, which becomes 1 |
| SandboxAbi.DecodeNormalises | src/sandbox/abi.rs:52-77 | a word is refused exactly when its kind is unknown; encode after decode keeps the kind and is a normal form; stamp counts are taken into 1 to 255, unknown reasons are invalid proposals |
| SandboxHost.ScanRefinesCharacters | src/sandbox/host.rs:166-410 | for every string the byte scan of its UTF-8 encoding counts exactly the disjoint character pairs |
| SandboxHost.ScanBytesBound | src/sandbox/host.rs:166-410 | the scan counts at most half the bytes, so the guest's counter cannot overflow |
| SandboxHost.SixBytesMatch | src/sandbox/host.rs:166-410 | the six comparisons, all at addresses inside the message, recognise exactly a doubled kana |
| SandboxHost.HitAt | src/sandbox/host.rs:166-410 | the branch chain of one iteration finds the width of the hit at the cursor, reading only below the length |
| SandboxHost.ScanMemory | src/sandbox/host.rs:166-410 | the loop ends and returns the byte count, with wrapping 32-bit arithmetic and every load in bounds |
| SandboxHost.Analyze | src/sandbox/host.rs:166-410 | the returned word is the encoding of the proposal for length, count and special phrase |
| SandboxHost.Propose | src/sandbox/host.rs:82-135 | the result for every ABI version, memory limit, message and runtime fault; an undisturbed call on a message that fits the page answers with the proposal for its characters |
| SandboxHost.AnswerMeansTotal | src/sandbox/host.rs:166-410 | over 32768 bytes the answer is SuspiciousInput, then SpecialPhrase for a phrase, and otherwise Noop, ReactOnce or SendStamped exactly for totals of 0, 1 or more, with the total up to 255; an overflowing total is answered Noop |
| Detector.ByteMatchIsCharMatch | src/domain/detector.rs:191-212 | searching bytes and searching characters agree at every character position, by self-synchronisation |
| Detector.HitEndsAtBoundary | src/domain/detector.rs:191-212 | every byte hit ends on a character boundary, so slicing at the cursor never fails |
| Detector.SearchBytes | src/domain/detector.rs:191-212 | the search loop with its byte cursor counts greedily, the cursor always on a boundary |
| Detector.CountNonOverlapping | src/domain/detector.rs:191-212 | the result is the largest number of disjoint occurrences, character by character: up to ASCII case for ASCII patterns, literally for others; 0 for an empty pattern |
| Detector.OnePassIsThreePasses | src/domain/detector.rs:183-212 | one scan for all pairs equals three scans for one alphabet each, because the alphabets are disjoint |
| Detector.OoCountIsLiteralCount | src/domain/oo_counter.rs:5-25 | the iterator count equals the sum over the three default literal patterns on every text |
| Detector.DefaultReport | src/domain/detector.rs:107-181 | the whole report on a message with default patterns and one phrase, saturating at 64 bits |
| Template.ParseSpellsTemplate | src/config.rs:547-564 | a parsed template's pieces put together spell the template |
| Template.ValidateTemplate | src/config.rs:547-568 | the cursor loop accepts exactly the templates that parse and refuses the others with the same reason |
| Template.AcceptedExactly | src/config.rs:547-568 | accepted are exactly the templates that can be written as literal texts without opening marks and placeholders in between |
| Template.RefusedFor | src/config.rs:547-568 | a refused template has an accepted part followed by an opening mark that is never closed, or closed behind a name that is none of the five |
| Bot.ValidateBot | src/config.rs:507-542 | the chain of checks accepts exactly the stated bounds and otherwise names a check that fails |
| Template.ReplaceFillsOneKey | src/security/response_compiler.rs:132-134 | replacing one placeholder fills exactly the holes of its key, when the outcome is free of opening marks |
| Template.SubstituteIsSimultaneous | src/security/response_compiler.rs:115-139 | for accepted templates and any values, five successive replacements give the simultaneous substitution exactly when that contains no opening mark |
| Template.InertValuesRender | src/config.rs:547-564 | every accepted template renders as the simultaneous substitution when the values of the placeholders it uses are non-empty and free of dollar signs and opening braces |
| SanitisingLaws.SanitiseKeepsTheKept | src/security/response_compiler.rs:147-154 | sanitising leaves exactly the characters that are printable, not a closing brace and not half of an opening mark, in order |
| SanitisingLaws.OpeningIsLeftExactly | src/security/response_compiler.rs:147-154 | the sanitised value contains an opening mark if and only if a kept dollar sign is followed, with nothing kept in between, by a kept opening brace |
| SanitisingLaws.LeftAloneExactly | src/security/response_compiler.rs:147-154 | a value is left alone if and only if everything in it is kept |
| SanitisingLaws.ControlsEncode | src/security/response_compiler.rs:147-154 | which characters count as control characters, by their bytes |
| Rendering.SanitisingCanLeaveAnOpening | src/app/analyze_message.rs:211-218 | an input that comes out with an opening mark |
| Rendering.PlainIsSanitary | src/security/response_compiler.rs:147-154 | printable text without dollar signs and closing braces is left alone |
| Rendering.RepeatStamp | src/security/response_compiler.rs:175-184 | the loop's result is a row of n stamps by position: the i-th begins at i times the stamp's length plus one, a space stands before each but the first, and there is nothing else |
| Rendering.JoinIsRow | src/app/analyze_message.rs:108-118 | the row that both paths join is that row, by position |
| Rendering.DecimalIsNumeral | src/security/response_compiler.rs:123-131 | the digits put for the count stand for it, without leading zeros |
| Rendering.RenderStepByStep | src/security/response_compiler.rs:115-145 | which placeholder is replaced by which value, in which order, and what is refused or repeated |
| Rendering.JoinPrefix | src/app/analyze_message.rs:108-118 | fewer repetitions are a prefix of more |
| Rendering.RenderTemplate | src/security/response_compiler.rs:115-145 | the replacement loop computes the rendering, and no rendered text contains an opening mark |
| Rendering.RenderedHasNoOpen | src/security/response_compiler.rs:115-145 | no rendered text, repeated stamps included, contains an opening mark, whatever template and values |
| Rendering.StampTemplateRepeats | src/security/response_compiler.rs:136-142 | the default template with a clean stamp renders as the stamp repeated count times |
| SubstitutionLaws.SubstituteExactly | src/security/response_compiler.rs:115-139 | if neither the template's literal text nor a value contains a closing brace, five replacements are the simultaneous substitution, refused exactly when that contains an opening mark |
| SubstitutionLaws.SanitisedClosesNothing | src/security/response_compiler.rs:147-154 | no sanitised value contains a closing brace |
| SubstitutionLaws.RenderExactly | src/security/response_compiler.rs:115-145 | a template without closing braces in its literal text renders as the simultaneous substitution, or as the repeated stamp when that is the stamp, and is refused exactly when the substitution contains an opening mark |
| SubstitutionLaws.ValidatedRendersExactly | src/config.rs:507-564 | under a validated configuration with such a template rendering succeeds if and only if the simultaneous substitution contains no opening mark |
| SubstitutionLaws.JoinedMarkCanBeFilled | src/security/response_compiler.rs:115-145 | an accepted template and a stamp whose simultaneous substitution contains an opening mark and which still renders, as the reading alone |
| PureAnalyzer.JoinFits | src/app/analyze_message.rs:98-106 | n repetitions fit the limit exactly when n is at most `max_repeats_for_len` |
| PureAnalyzer.ActsExactly | src/app/analyze_message.rs:56-133 | for every message: it is answered with text if and only if the author is no bot and there is a special phrase, or a capped count of at least 2 under ReactOrSend; with the configured reaction if and only if there is neither, and the capped count is 1, or more under ReactOnly; and with which text |
| PureAnalyzer.RepeatsFit | src/app/analyze_message.rs:80-106 | the stamps are as many as counted, allowed and fitting, but at least one |
| PureAnalyzer.RenderSendTemplate | src/app/analyze_message.rs:173-209 | the result of `render_send_template` itself: rendered, cut to the limit, not empty and free of opening marks, or nothing, and then the caller sends the plain row instead |
| PureAnalyzer.WholeStamps | src/app/analyze_message.rs:56-96 | with the default template and a clean stamp that fits, as many whole stamps are sent as the count, the cap and the limit allow, and nothing is cut |
| PureAnalyzer.SentDirectlyExactly | src/app/analyze_message.rs:56-96 | a text sent directly is within the limit exactly when it was rendered or the stamp is, and free of opening marks exactly when it was rendered or the stamp is |
| PureAnalyzer.ValidatedIsBounded | src/config.rs:507-526 | under a validated configuration no text of more than 8000 characters is sent and no reaction without an emoji |
| ResponseCompiler.SendExactly | src/security/response_compiler.rs:20-48 | a message results exactly when the proposal asks for text, mode, suspicion and policy allow it and the cut text is not blank; it is that text |
| ResponseCompiler.IntentExactly | src/security/response_compiler.rs:78-113 | a proposal asks for text exactly when it is a special phrase, or a count of at least 2 after capping by detector and configuration renders visibly; for a reaction exactly when that count is 1 |
| ResponseCompiler.ReactExactly | src/security/response_compiler.rs:20-48 | a reaction results exactly when its emoji has an id and a name, reactions are allowed and the trusted count is 1 or a message is downgraded; it is the configured one, field by field |
| ResponseCompiler.WireContainment | src/security/response_compiler.rs:20-113 | whatever 64-bit word the analyzer returns, a resulting message is not blank, within the limit and allowed, and is the cut stamp or the cut rendering of at least 2 stamps and at most the trusted total, the cap and 255 |
| ResponseCompiler.ValidatedRenders | src/config.rs:507-543 | under a validated bot configuration a stamped proposal renders whenever those of stamp, backend and reading that the template uses are inert when sanitised; an unused reading may be empty |
| Agreement.ReportMeans | src/domain/detector.rs:107-181 | with default patterns and one phrase the report's total is the pair count plus the token hits, and its phrase flag is containment |
| Agreement.TextsAgree | src/app/analyze_message.rs:86-96 | both paths' texts begin the same row of stamps, so they are equal exactly when they are cut at the same length |
| Agreement.AgreeExactly | src/security/response_compiler.rs:20-113 | for every message, with default template and policy, a clean stamp and sizes within the analyzer's limits, governed and direct path give the same action if and only if a condition on stamp, limits and capped count holds |
| Agreement.LargestCountDecides | src/app/analyze_message.rs:80-96 | if both paths cut the longest allowed row alike they cut every shorter one alike, under any limits |
| Agreement.ConfigurationAgreesExactly | src/security/core_governor.rs:326-405 | both paths agree on every message if and only if the stamp is visible and within the governor's limit and both limits cut the longest allowed row at the same length |
| Agreement.ConsistentAgrees | src/security/core_governor.rs:326-405 | a consistent configuration makes both paths agree on every message |
| Agreement.InconsistentDisagrees | src/security/core_governor.rs:326-405 | every inconsistent configuration comes with a message on which the paths differ: the phrase, or an empty text with as many token hits as the cap |
| Agreement.ValidatedCanDisagree | src/config.rs:507-526 | a configuration that start-up validation accepts, and a message on which the paths differ |
| Agreement.RoomyIsConsistent | src/app/analyze_message.rs:86-96 | a visible stamp, a cap of at most 255 and room for the longest row in both limits are enough |
| Agreement.ShippedIsConsistent | src/config.rs:618-628 | the shipped configuration is consistent |
| Agreement.ShippedIsComparable | src/config.rs:618-628 | the shipped configuration meets the premises of the comparison for every message within the analyzer's limits |
| AgreementBeyond.StampTemplateExactly | src/security/response_compiler.rs:115-145 | the default template with any stamp: refused when the sanitised stamp contains an opening mark, and otherwise the sanitised stamp, repeated only if sanitising left it alone |
| AgreementBeyond.UnsanitaryAgreesExactly | src/security/core_governor.rs:326-405 | with a stamp that sanitising changes the paths agree if and only if a stated condition on phrase, count, sanitised stamp and limits holds |
| AgreementBeyond.OversizedAgreesExactly | src/security/core_governor.rs:326-405 | over 32768 bytes the governed path does nothing, and the paths agree if and only if the message has neither phrase nor hit |
| SlidingWindow.Trim | src/security/circuit_breaker.rs:47-55 | the pop-front loop leaves exactly the events inside the window |
| SlidingWindow.TrimIsRecent | src/security/core_governor.rs:447-456 | on a sorted queue popping from the front is filtering by age |
| SlidingWindow.RecentExactly | src/security/core_governor.rs:447-456 | an event is inside the window exactly when it is at most the window's length old, each as often as it happened |
| SlidingWindow.PushAndTrim | src/security/core_governor.rs:432-445 | recording into a trimmed queue and trimming again gives what the full history would |
| SlidingWindow.TrimLater | src/security/core_governor.rs:447-456 | trimming a trimmed queue later loses nothing the full history would keep |
| SlidingWindow.WindowPasses | src/security/core_governor.rs:447-456 | once every event is older than the window nothing counts |
| CircuitBreaker.HttpCircuitBreaker.RecordStatus | src/security/circuit_breaker.rs:30-41 | the whole new state after a response of any status |
| CircuitBreaker.HttpCircuitBreaker.AllowsOutbound | src/security/circuit_breaker.rs:26-28 | outbound is allowed exactly when the breaker is not open |
| CircuitBreaker.HttpCircuitBreaker.Open | src/security/circuit_breaker.rs:43-45 | the query of the open state |
| CircuitBreaker.BreakerRemembers | src/security/circuit_breaker.rs:30-55 | after any sorted history of refusals the queue holds the recent ones and the opening time is that of the last refusal that filled its window |
| CircuitBreaker.OpenExactlyByHistory | src/security/circuit_breaker.rs:26-55 | the breaker is open if and only if some refusal at r with at least threshold refusals in its window satisfies r <= now < r + open time |
| RateLimiter.TokenBucket.TryTake | src/security/rate_limiter.rs:22-31 | the answer and the whole new state, granted or not |
| RateLimiter.TokenBucket.Refill | src/security/rate_limiter.rs:33-40 | seconds times rate, capped, and nothing when time has not advanced |
| RateLimiter.TakenExactly | src/security/rate_limiter.rs:22-40 | what a request for any amount finds, whether it is granted and what it leaves |
| RateLimiter.GainIsProduct | src/security/rate_limiter.rs:33-40 | accrual by the millisecond equals seconds times rate |
| RateLimiter.RateBound | src/security/rate_limiter.rs:12-40 | in any stretch of requests the grants are at most burst plus rate times duration |
| RateLimiter.SlowAsksGranted | src/security/rate_limiter.rs:12-40 | requests at gaps of at least one token's refill are all granted |
| RateLimiter.PaidAfterAsk | src/security/rate_limiter.rs:22-40 | the budget of a closed time window is kept by every request, in or out of it |
| DuplicateGuard.Guard.IsDuplicateAndMark | src/security/duplicate_guard.rs:18-28 | the answer, and the new memory: old entries out, this one in, cut down to the newest when over capacity |
| DuplicateGuard.Guard.EvictOld | src/security/duplicate_guard.rs:30-33 | exactly the entries within the ttl stay |
| DuplicateGuard.Guard.Compact | src/security/duplicate_guard.rs:35-44 | the capacity's worth of newest entries stay, with their times |
| DuplicateGuard.OldestFirst | src/security/duplicate_guard.rs:36-38 | a listing of all entries sorted by time |
| DuplicateGuard.Reinsert | src/security/duplicate_guard.rs:39-43 | clearing and refilling keeps exactly the chosen entries |
| DuplicateGuard.MarkRefines | src/security/duplicate_guard.rs:18-44 | marking keeps the refinement of the unbounded history: size within capacity, stored times are last sightings, and only ids with a full capacity of later ones are forgotten within the ttl |
| DuplicateGuard.AnswerByHistory | src/security/duplicate_guard.rs:18-28 | "duplicate" implies a sighting within the ttl, and a sighting within the ttl goes unreported only after a capacity of other ids |
| Mode.ModeState.Transition | src/security/mode.rs:46-54 | the state changes exactly when the mode does, with trigger and time |
| SessionBudget.Budget.ConsumeIdentify | src/security/session_budget.rs:14-16 | one session less, unless none is left; a low budget stays low |
| Cooldown.CooldownMap.Cooling | src/security/core_governor.rs:580-582 | a key cools exactly until its recorded time |
| Cooldown.CooldownMap.Mark | src/security/core_governor.rs:584-586 | one key's time is set to now plus the cooldown, the others stay |
| CoreGovernor.TrustedCore.constructor | src/security/core_governor.rs:142-191 | the initial state from the configuration, with the clamps of each guard |
| CoreGovernor.TrustedCore.RecomputeMode | src/security/core_governor.rs:447-483 | the fixed priority order, the transition and its counters |
| CoreGovernor.TrustedCore.DecideMessage | src/security/core_governor.rs:275-349 | one message is exactly one step of the state machine: decision and whole new state |
| CoreGovernor.TrustedCore.Finalize | src/security/core_governor.rs:351-406 | reasons, breaker, bucket, action limit, cooldowns and caps in the source's order |
| CoreGovernor.TrustedCore.CooldownAllows | src/security/core_governor.rs:408-430 | the answer and the four maps, the guild marked before the global cooldown is read |
| CoreGovernor.TrustedCore.RecordAnalyzerError | src/security/core_governor.rs:432-445 | the counter for the kind of error, and the failure recorded and trimmed |
| CoreGovernor.TrustedCore.Drop | src/security/core_governor.rs:485-502 | no action, the reason, and both drop counters |
| CoreGovernor.TrustedCore.RecordHttpStatus | src/security/core_governor.rs:253-260 | the breaker's step and the counter of refused requests |
| CoreGovernor.TrustedCore.ChangeAccessLists | src/security/core_governor.rs:213-224 | the four lists are replaced and nothing else changes |
| CoreGovernor.TrustedCore.ChangeKillSwitch | src/security/core_governor.rs:209-211 | the kill switch is set and nothing else changes |
| CoreGovernor.TrustedCore.ChangeModeOverride | src/security/core_governor.rs:205-207 | the override is set and nothing else changes |
| CoreGovernor.TrustedCore.UpdateSessionBudget | src/security/core_governor.rs:244-251 | the budget is replaced, its watermark taken from the configuration |
| Steps.CapsAreIdentity | src/security/core_governor.rs:589-616 | `enforce_action_caps` changes nothing that `compile_response` returns, and the last validity check never fails |
| Steps.CapsExactly | src/security/core_governor.rs:589-607 | on any action the caps cut texts to the limit and let only reactions with an emoji pass |
| Steps.CooldownAnswer | src/security/core_governor.rs:408-430 | a message passes exactly when none of its keys is cooling; a refusal leaves user, channel and global marks alone and touches the guild exactly when only the global cooldown refuses |
| Steps.RefusalExtendsGuildCooldown | src/security/core_governor.rs:415-424 | such a refusal makes a guild cool that was not cooling |
| Steps.FinalizedFacts | src/security/core_governor.rs:351-406 | each compiled action is dropped with the first guard's reason or released unchanged; no action without a reason exactly for proposals that ask for none |
| Steps.DecidedFacts | src/security/core_governor.rs:275-406 | what one decision does to every part of the state, and when it is outbound, duplicate, silent or stopped by breaker or bucket |
| Handler.SharedCore.constructor | src/infra/discord_handler.rs:29-33 | a new core is the start of an empty run |
| Handler.SharedCore.OnMessage | src/infra/discord_handler.rs:47-54 | a message handled under the lock extends the calls made so far to a longer valid run that ends in the core's state |
| Handler.SharedCore.OnControl | src/infra/discord_handler.rs:69-75 | so does every other call on the core |
| Runs.SettingsStay | src/security/core_governor.rs:142-251 | no call in any run changes the bot configuration, a guard's limits, or more of the runtime configuration than override, kill switch and access lists |
| GuildExample.MessageDecided | src/security/core_governor.rs:275-349 | while the duplicate guard has room every message has a decision in every state, with the effects that `Steps.Outcome` lists |
| GuildExample.UnansweredGuildWaits | src/security/core_governor.rs:408-430 | a run of two messages under the shipped limits: the second, the only one of its guild, is refused for the global cooldown alone, and the guild cools at 299 ms |
| RunModes.BreakerByHistory | src/security/circuit_breaker.rs:26-55 | in every reachable state the breaker is open if and only if the recorded refusals say so |
| RunModes.QueueFollowsHistory | src/security/core_governor.rs:432-456 | in every reachable state the trimmed queue equals the sandbox failures of the run inside the window |
| RunModes.DecisionModeIsModeByHistory | src/security/core_governor.rs:447-483 | the mode of every decision is a function of configuration and history by the fixed priority order; no trimmed state matters |
| RunModes.ReturnsToNormal | src/security/core_governor.rs:458-483 | once the windows have passed the mode is Normal unless an operator or the budget decides; with threshold 0 it never is |
| RunModes.NothingLeavesWhileTripped | src/security/core_governor.rs:383-385 | no decision is outbound while the breaker is open by history, even under override or low budget, and its reason is reported only in those two situations |
| RunReasons.AccessListsAsLastSet | src/security/core_governor.rs:213-224 | in every reachable state the four lists are those last set |
| RunReasons.AccessExactly | src/security/core_governor.rs:504-526 | a message is dropped for its guild if and only if mode and author let it through and the guild is denied, or missing from a non-empty allow list; for its channel likewise when the guild passes; nothing outbound has a guild or channel so shut out |
| RunReasons.EveryReason | src/security/core_governor.rs:275-406 | the reason of every decision, or its absence, is that of the first check in the source's order that stands against the message, read off configuration, history and duplicate guard |
| RunRecords.ModeRecordByHistory | src/security/core_governor.rs:458-483 | in every reachable state the recorded mode, time and trigger are those of the last message decided in another mode than the one before |
| RunRecords.LastDetectionByHistory | src/security/core_governor.rs:328-328 | in every reachable state the last detection is the report on the last message past the duplicate guard |
| RunRecords.CountersByHistory | src/security/core_governor.rs:253-502 | in every reachable state each counter is the number of its events in the run, saturating at 64 bits |
| RunDuplicates.GuardRefinesSightings | src/security/duplicate_guard.rs:18-44 | in every reachable state the guard refines the sightings of the whole run |
| RunDuplicates.DuplicateWasSighted | src/security/core_governor.rs:315-324 | a message called duplicate has an earlier sighted message with its id within the ttl |
| RunDuplicates.SeenIsDuplicateUnlessPushedOut | src/security/core_governor.rs:315-324 | a message seen within the ttl passes again only after a capacity of other ids was sighted in between |
| RunDuplicates.AtMostOnce | src/security/core_governor.rs:315-324 | two outbound decisions for one id are more than the ttl apart or separated by such an eviction |
| RunPace.OutboundRateBound | src/security/rate_limiter.rs:12-40 | in every closed window of every run the outbound decisions are at most the burst, at least 1, plus the rate, at least 0.1 per second, times the duration |
| RunPace.BucketByHistory | src/security/rate_limiter.rs:22-40 | in every reachable state the bucket is what the requests made of it leave of a full one |
| RunPace.SlowMessageNotLimited | src/security/core_governor.rs:387-389 | a message is never dropped for the rate when nothing asked the bucket before it, or seconds times rate since the last message that did come to a token |
| RunCooldowns.CoolingByHistory | src/security/core_governor.rs:408-430 | in every reachable state a user, channel, guild or global key is cooling if and only if an earlier message marked it less than its cooldown ago: an outbound one, or for a guild one refused for the global cooldown alone |
| RunCooldowns.AnyCoolingByHistory | src/security/core_governor.rs:408-430 | a cooldown stands against a message if and only if one of its keys cools by history |
| RunCooldowns.CooldownSpacing | src/security/core_governor.rs:408-430 | two outbound decisions are at least the global cooldown apart, and those sharing author, channel or guild at least its cooldown |
| RunCooldowns.OutboundCooldownBound | src/security/core_governor.rs:395-398 | with a global cooldown g > 0 a closed window of length d holds at most d / g + 1 outbound decisions |
| RunPace.DroppedCountsReasons | src/security/core_governor.rs:485-502 | in every reachable state the dropped counter is the number of reasons given, until it saturates |
| RunPace.EveryMessageAccountedFor | src/security/core_governor.rs:351-406 | a reason excludes an action, and no action without a reason happens exactly for a finalised proposal Noop, Defer or Reject |
| RunActions.OutboundExactly | src/security/core_governor.rs:275-406 | an action leaves if and only if author, access lists as last set, duplicate guard, compiler and action limit allow it and, by history, mode, breaker, bucket and cooldowns do |
| RunActions.GovernorAgrees | src/security/core_governor.rs:326-405 | a message that passes every guard in Normal mode gets the governed path's action, which for a consistent configuration is that of the direct path |
| RunActions.SentMessageIsContained | src/security/core_governor.rs:326-405 | whatever the sandbox answered, a sent message is visible, within the limit, sent in Normal mode without suspicion under policy ReactOrSend, and is the cut stamp or the cut rendering of a number of stamps within the trusted one |
| AuditStore.Store.RecordEvent | src/audit/mod.rs:289-420 | refused without change when read-only; otherwise one row chained to the last is appended and the manifest created when due |
| AuditStore.Store.MaybeCreateManifest | src/audit/mod.rs:602-632 | every thousandth event adds a manifest over the hashes of the last thousand rows |
| AuditStore.Store.Verify | src/audit/mod.rs:464-531 | the report on any range of any table, or the missing row that prevents it |
| AuditStore.Store.CheckRows | src/audit/mod.rs:509-530 | the loop lists every link and hash mismatch in order and counts them |
| AuditChain.RecordAll | src/audit/mod.rs:289-420 | a store that records a sequence of events holds exactly the table its guarantees are about |
| AuditChain.RecordedNext | src/audit/mod.rs:289-420 | one more event on a recorded table is the step of `Store.RecordEvent`: one chained row, and the manifest when due |
| AuditChain.NoMismatchIffClean | src/audit/mod.rs:509-530 | the verifier finds nothing if and only if every row names its predecessor's hash and carries its own |
| AuditChain.ReportExactly | src/audit/mod.rs:464-531 | on any range of any table: refused exactly for want of the row before the range, with its id; otherwise every wrong link and every wrong hash among the rows with ids in the range is listed once, and nothing else |
| AuditChain.VerifiesCleanIffClean | src/audit/mod.rs:464-531 | verifying without bounds succeeds with nothing broken if and only if every row of the table links and carries its hash |
| AuditChain.RecordedVerifies | src/audit/mod.rs:289-531 | a store built only by recording verifies with nothing broken on every range; only a range starting beyond the next row is refused |
| AuditChain.RangesCompose | src/audit/mod.rs:464-531 | on any table, verifying two adjacent ranges finds exactly what verifying their union does if and only if the row where they meet exists or the first range is already refused |
| AuditChain.RecordingKeepsMismatches | src/audit/mod.rs:289-420 | recording on top of any table neither adds nor repairs a mismatch |
| AuditChain.HealthCheckIsComplete | src/security/diagnostics.rs:370-388 | the periodic check always has the row before its range and covers the last rows, as many as it may |
| AuditChain.ManifestsTile | src/audit/mod.rs:602-632 | after n events there are exactly n / 1000 manifests, the k-th over ids 1000k + 1 to 1000k + 1000, and it hashes the row hashes of these rows, 64 digits each, one after another |
| AuditChain.ManifestTamperEvident | src/audit/mod.rs:602-632 | two manifests with the same hash cover the same row hashes, or the two texts that list them collide |
| AuditChain.HashedTextSplits | src/audit/mod.rs:863-868 | previous hash followed by payload splits in one way only, whatever the payloads: a previous hash is the genesis mark or 64 hexadecimal digits |
| AuditChain.TamperEvident | src/audit/mod.rs:464-531 | two tables of any payloads on which the verifier reports nothing broken and which end in the same hash hold the same payloads and hashes, or two of their hashed texts collide |
| AuditChain.AlteredPayloadIsReported | src/audit/mod.rs:509-530 | altering one payload of a clean table is reported at that row, or is a collision with the original |
| Redaction.RedactKeyValuePair | src/security/diagnostics.rs:298-312 | the loop over the lines computes one redaction pass |
| Redaction.Redact | src/security/diagnostics.rs:290-296 | the loop over the five keys computes all passes |
| Redaction.TrimmedUnlines | src/security/diagnostics.rs:298-312 | the lines of a pass's output: trailing blank lines gone, the last trimmed, each other line one carriage return shorter |
| RedactionLaws.ValueIndependent | src/security/diagnostics.rs:290-312 | texts whose lines agree up to and including a marker of any key, in either case of each letter, redact to the same text |
| RedactionLaws.SecretMakesNoDifference | src/security/diagnostics.rs:290-312 | what stands behind a key on its line makes no difference to the output, wherever in the text the line is |
| RedactedLines.LineIsCut | src/security/diagnostics.rs:298-312 | one pass on a line: its text to the end of the first marker and <redacted>, or the line itself |
| RedactedLines.RedactsEveryLine | src/security/diagnostics.rs:290-312 | for any keys every marked line comes out in its place, cut behind the marker that ends first of all; other lines lose white space at their ends only, and only blank lines at the end are missing |
| RedactedLines.SensitiveLines | src/security/diagnostics.rs:290-296 | the same for the five keys, named |
| RedactedLines.SensitiveMakesNoDifference | src/security/diagnostics.rs:290-296 | what stands behind one of the five keys, in any case of its letters, makes no difference |
| RedactingTwice.RedactKeepsFixed | src/security/diagnostics.rs:298-312 | a line redacted for one key stays redacted for it under every other key |
| RedactingTwice.RedactingAgain | src/security/diagnostics.rs:290-312 | redacting again changes nothing if and only if no line of the input without a key that stands before a visible line ends in as many carriage returns as there are keys |
| RedactingTwice.RedactingAgainCanChange | src/security/diagnostics.rs:290-312 | two-line inputs with more carriage returns than keys, for which it does change |

## Left out

- Discord and gateway calls, tokio tasks, signals, the control socket, the command line, the terminal UI:
  input and output, and only the fact that calls on the core are atomic is kept.
- Lindera tokenisation and the normalisation of readings: unseen libraries; matched readings and token
  hits are inputs of the report.
- `classify_suspicious_input` and its thresholds: the suspicion level is an input of a decision.
- The WebAssembly runtime: compilation, fuel and memory limits appear as faults that a call may meet;
  the guest itself is modelled.
- Floating-point rounding in the token bucket.
- Saturating `usize` arithmetic on lengths, and the 64-bit bound on event ids.
- SQLite, JSON, CSV and Parquet encoding, file permissions, HMAC signatures and pseudonymous ids; a
  payload is an opaque text, and the audit columns besides payload and hashes are not part of the model
  because `verify` does not read them.
- Read-only connections see the table as it is when they are opened.
- Reconnect and resume counters, `tail`, `inspect`, `stats` and `export`: no invariants beyond their
  bodies.
- LSM and hardening detection, the external tool runner, build tasks and fixtures.
- AuditChain.HealthCheckIsComplete: is about tables with ids 1 to n, the only ones that recording and the
  append-only triggers leave; a table with a gap before the range is reported as an error instead.
