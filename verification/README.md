# KakaoTalk chat export to chat-model training data — a Dafny model

The pipeline turns a KakaoTalk group-chat export into training examples for a
chat model, in three stages. This project models the core of each stage and
proves what each one promises.

1. **Parsing the export** (`scripts/parse_txt_to_json.py`, module `ChatParser`)
   - The parser reads the export line by line.
   - A date separator sets the current date. A join/leave notice, a bot message
     or a media-only message is dropped, and so is the rest of its text.
   - A message header (`[speaker] [오전|오후 h:mm] content`) starts a message. Its
     time is converted to a 24-hour clock.
   - Any other non-blank line is appended to the open message.
   - `ChatParser.ParseLines` is the loop. Its per-line step goes through the same
     branches and keeps the same `last_msg` alias, modelled as the index of the
     open message.
   - `ChatParser.ParseLines` is proved equal to a left fold (`Parse`). The fold is
     proved equal to `Reference`, an independent definition: one message per
     accepted header, dated by the last separator before it, and extended by the
     non-blank lines that follow it before anything else closes it.
2. **Grouping into question/answer turns** (`scripts/build_chat_turns.py`, modules
   `Classifiers` and `ChatTurns`)
   - A timestamped message that the keyword classifier calls a question opens a
     turn.
   - Later messages are scanned until one arrives more than six hours after the
     question, or another question appears. Untimed messages are skipped, and
     answer-like messages are collected.
   - The turn is kept when it has at least one answer, and the outer scan resumes
     at the message that stopped the inner one.
   - `ChatTurns.BuildChatTurns` is the two nested loops. It is proved equal to
     `Turns`, a recursive specification; the structural facts are proved about
     `Turns`.
3. **Sanitising and formatting** (`scripts/processing.py`, module `Processing`)
   - `preprocess_text` is modelled as `Processing.Preprocess`:
     - text mentioning both 유로 and 환전, or containing a URL, becomes empty;
     - phone numbers and e-mail addresses are replaced by placeholders;
     - Hangul jamo and every character outside `\w`, `\s` and `,.!?` are
       deleted;
     - the result is stripped.
   - The phone and e-mail regular expressions are modelled over ASCII digits
     (see "Left out" for how that differs from Python's `\d`). The model follows
     the order in which Python's backtracking tries the phone shapes, and the
     greedy back-off of the e-mail domain to its last `.xx`.
   - `Processing.ProcessRecords` is the record loop:
     - cleans both sides of a turn;
     - drops the messages that clean to nothing;
     - joins the rest with spaces;
     - skips the turn when either side is empty;
     - emits a user/assistant pair otherwise.

Module `Text` holds the Python string built-ins the stages use. Module
`Wrappers` holds `Option`. An absent value (`None`, a missing timestamp, a
missing JSON key) is an `Option`.

Three facts about the code that a reader might not expect:

- **Placeholders lose their brackets.** The substitutions write `[PHONE]` and
  `[EMAIL]`, so one might expect those in the cleaned text. The code inserts them
  before the step that deletes every character outside `\w\s,.!?`, and that step
  removes the brackets. The cleaned text therefore carries `PHONE`/`EMAIL`: see
  `Processing.PlaceholderLosesBrackets` and `Processing.DashedNumberCleaned`.
- **The sanitiser is not idempotent.** One might expect cleaning already-cleaned
  text to change nothing. Ten digits written in slash-separated pairs
  (`01/23/45/67/89`) do not match the phone pattern, and cleaning removes the
  slashes. A second cleaning then finds a phone number:
  `Processing.CleaningNotIdempotent`.
- **The system-line check on a continuation line can never fire.** That check
  (`parse_txt_to_json.py` line 96) looks at the same right-stripped line that
  line 55 has already dismissed: `ChatParser.ContinuationNeverSystem`.

## Model

| member | source | states |
|---|---|---|
| Text.ContainsIff | scripts/build_chat_turns.py:42 | `Contains`: Python's `sub in s` holds exactly when `sub` occurs at some position of `s` |
| Text.ContainsChar | scripts/build_chat_turns.py:42 | searching for a one-character string is membership of that character |
| Text.RStripSpec | scripts/parse_txt_to_json.py:44 | `rstrip` removes exactly the longest whitespace suffix and keeps the rest as a prefix |
| Text.LStripSpec | scripts/processing.py:28 | `lstrip` removes exactly the longest whitespace prefix and keeps the rest as a suffix |
| Text.StripSpec | scripts/build_chat_turns.py:38 | `Strip`: `strip` leaves no whitespace at either end; it keeps only input characters; it is empty exactly when the input is all whitespace |
| Text.StripFixed | scripts/processing.py:28 | a string with no whitespace at either end is its own strip |
| Text.StripIdempotent | scripts/build_chat_turns.py:67-76 | stripping twice is stripping once |
| Text.JoinEmptyIff | scripts/processing.py:44-45 | `Join`: joining non-empty parts gives the empty string exactly for the empty list |
| Text.JoinAppend | scripts/processing.py:44-45 | joining a concatenation puts one separator at the boundary |
| Text.Decimal | scripts/parse_txt_to_json.py:75 | `str(n)` is one or more digits; it has one digit exactly below 10 and two exactly from 10 to 99 |
| Text.DecimalRoundTrip | scripts/parse_txt_to_json.py:70-75 | reading the decimal digits of `n` back gives `n` |
| Text.LeadingZeroValue | scripts/parse_txt_to_json.py:50 | a leading zero does not change the value of a digit string |
| Classifiers.EndsWithAny | scripts/build_chat_turns.py:47-49 | the early-return loop over the endings succeeds exactly when the text ends with one of them |
| Classifiers.ContainsAny | scripts/build_chat_turns.py:53-55 | the early-return loop over the phrases succeeds exactly when the text contains one of them |
| Classifiers.IsQuestionIff | scripts/build_chat_turns.py:33-57 | `IsQuestion`: a message is a question exactly when its stripped text contains `?`, ends with a question ending, or contains an intent phrase |
| Classifiers.QuestionIgnoresPadding | scripts/build_chat_turns.py:38 | surrounding whitespace never changes whether a message is a question |
| Classifiers.IsAnswerLikeIff | scripts/build_chat_turns.py:62-79 | `IsAnswerLike`: a message is answer-like exactly when its stripped text has at least five characters and it is not a question |
| Classifiers.NeverBoth | scripts/build_chat_turns.py:74-77 | no message is both a question and answer-like |
| ChatTurns.Examine | scripts/build_chat_turns.py:144-165 | a later message is skipped exactly when it is untimed, or within the window and neither a question nor answer-like; it stops the scan exactly when it is timed and either later than six hours or a question |
| ChatTurns.ScanStop | scripts/build_chat_turns.py:141-158 | the inner scan stops at the first stopping message at or after its start, or at the end |
| ChatTurns.ScanAnswers | scripts/build_chat_turns.py:160-163 | every collected index lies between the scan start and the stop, and its message is collectable |
| ChatTurns.ScanAnswersComplete | scripts/build_chat_turns.py:160-165 | every collectable message before the stop is collected |
| ChatTurns.ScanAnswersIncreasing | scripts/build_chat_turns.py:163 | answers are collected in message order |
| ChatTurns.SpansFrom | scripts/build_chat_turns.py:125-177 | every turn found from position `i` has its question at or after `i` and lies within the message list |
| ChatTurns.Contents | scripts/build_chat_turns.py:137-163 | the contents of the chosen messages, in order |
| ChatTurns.Render | scripts/build_chat_turns.py:169-173 | one turn record per kept span |
| ChatTurns.ScanAfterQuestion | scripts/build_chat_turns.py:140-165 | the inner loop ends at the stop position and returns the contents of exactly the collectable messages before it |
| ChatTurns.BuildChatTurns | scripts/build_chat_turns.py:121-177 | the two nested loops produce `Turns(msgs)`: each turn has one user message that is a question and a non-empty list of answer-like assistant messages |
| ChatTurns.FirstSpanValid | scripts/build_chat_turns.py:136-173 | a kept turn starts at a timed question; its answers are increasing, within the window and complete up to the stop; nothing before the stop stops the scan |
| ChatTurns.SpansValid | scripts/build_chat_turns.py:121-177 | every kept turn is valid in that sense, and each turn ends before the next one's question |
| ChatTurns.QuestionsIncrease | scripts/build_chat_turns.py:175-177 | the questions of successive turns are strictly increasing positions, so the outer loop always advances |
| ChatTurns.RenderShape | scripts/build_chat_turns.py:169-173 | rendering valid spans gives turns with one question and at least one answer-like reply |
| ChatTurns.SegmentShape | scripts/build_chat_turns.py:121-177 | `Segment`: for any classifiers, each turn has one question and a non-empty list of answer-like replies |
| ChatTurns.TurnsShape | scripts/build_chat_turns.py:121-177 | `Turns`: the same with the script's own classifiers |
| ChatTurns.QuestionThenQuestion | scripts/build_chat_turns.py:155-177 | a question immediately followed by another timed question yields no turn; the second question is examined next |
| ChatTurns.StopMessageReexamined | scripts/build_chat_turns.py:175-177 | the outer loop resumes at the message that stopped the scan, so a stopping question can open the next turn |
| ChatTurns.WindowBoundaryUnder | scripts/build_chat_turns.py:150-153 | for any classifiers, an answer exactly six hours later is kept and one a minute after that ends the turn |
| ChatTurns.WindowBoundary | scripts/build_chat_turns.py:99-153 | the same boundary with the script's classifiers |
| ChatTurns.LateAnswerDroppedUnder | scripts/build_chat_turns.py:150-153 | for any classifiers, of two messages one hour and seven hours after a question only the first is collected, whatever the second one is |
| ChatTurns.SevenHourAnswerDropped | scripts/build_chat_turns.py:150-153 | the same with the script's classifiers, for any seven-hour message |
| ChatTurns.UntimedMessageTransparent | scripts/build_chat_turns.py:144-148 | an untimed message changes neither where the scan stops, nor what it collects, nor the turns found |
| ChatParser.ZFillTwoDigits | scripts/parse_txt_to_json.py:50 | `ZFill`: `zfill(2)` of a one- or two-digit string gives two digits with the same value |
| ChatParser.DateStringLayout | scripts/parse_txt_to_json.py:49-50 | `DateString`: the date string is `YYYY-MM-DD`: the year, then the month and the day as two digits each with unchanged value |
| ChatParser.To24HourClockFace | scripts/parse_txt_to_json.py:70-74 | `To24Hour`: for hours 1 to 12, the converted hour is `hour mod 12`, plus 12 in the afternoon, and below 24 |
| ChatParser.To24HourInjective | scripts/parse_txt_to_json.py:70-74 | two clock readings with hours 1 to 12 convert to the same hour only when they are the same reading |
| ChatParser.FormatTimeRoundTrip | scripts/parse_txt_to_json.py:75 | `FormatTime`: the time string is two digits holding the 24-hour value, `:`, then the minutes unchanged |
| ChatParser.ContinuationNeverSystem | scripts/parse_txt_to_json.py:93-97 | a line that reaches the continuation branch is never a system line, and it is the non-blank right-stripped line |
| ChatParser.SystemLineIff | scripts/parse_txt_to_json.py:26-33 | `IsSystemLine`: a line is a system line exactly when the join notice or the leave notice occurs in it |
| ChatParser.ClassifyPrecedence | scripts/parse_txt_to_json.py:44-93 | `Classify`, `HeaderKind`, `ContinuationKind`: a date match wins over everything, a notice over a header, a header over a continuation; a line yields a message exactly when it is a header from someone other than the bot whose stripped content is not a bare attachment, keeping speaker and content; it is a continuation exactly when it is none of these and not blank |
| ChatParser.Step | scripts/parse_txt_to_json.py:46-98 | one line keeps the open message, if there is one, as the last one parsed |
| ChatParser.Run | scripts/parse_txt_to_json.py:43-98 | the same holds after any sequence of lines |
| ChatParser.ReadLine | scripts/parse_txt_to_json.py:44-98 | the loop body over its three variables performs the step for the line's classification: date, then system notice, then header, then continuation |
| ChatParser.ReadHeader | scripts/parse_txt_to_json.py:60-90 | a header from the bot or with media-only content closes the open message; any other header appends a message and opens it |
| ChatParser.ClockTime | scripts/parse_txt_to_json.py:70-75 | the loop's time conversion computes the formatted 24-hour time |
| ChatParser.ReadContinuation | scripts/parse_txt_to_json.py:93-98 | a non-blank line is appended to the open message after a newline; other messages are untouched |
| ChatParser.ParseLines | scripts/parse_txt_to_json.py:38-98 | the parser loop returns `Parse(lines)`, and that equals the independent `Reference` description |
| ChatParser.EmitIndices | scripts/parse_txt_to_json.py:82-88 | the lines that produce messages are headers, listed in increasing order |
| ChatParser.Reference | scripts/parse_txt_to_json.py:38-98 | the export yields one message per accepted header |
| ChatParser.OldMessage | scripts/parse_txt_to_json.py:93-98 | a new line changes an earlier message only by appending its text, and only while that message is still open |
| ChatParser.OldMessageKept | scripts/parse_txt_to_json.py:46-90 | a line that is not a continuation leaves every earlier message unchanged |
| ChatParser.OldMessagesKept | scripts/parse_txt_to_json.py:46-90 | the same for the whole list of earlier messages |
| ChatParser.ClosedAfter | scripts/parse_txt_to_json.py:47-80 | a date separator, notice, bot header or media header leaves no message open |
| ChatParser.OpenAfterTrailing | scripts/parse_txt_to_json.py:93 | a continuation or blank line leaves the open message open and a closed one closed |
| ChatParser.StepClosing | scripts/parse_txt_to_json.py:47-80 | the closing branches keep the parser state in step with the description |
| ChatParser.StepBlank | scripts/parse_txt_to_json.py:93 | a blank line keeps the parser state in step with the description |
| ChatParser.StepHeader | scripts/parse_txt_to_json.py:82-89 | an accepted header keeps the parser state in step with the description |
| ChatParser.StepText | scripts/parse_txt_to_json.py:93-98 | a continuation line keeps the parser state in step with the description |
| ChatParser.TextExtends | scripts/parse_txt_to_json.py:98 | a continuation line extends the last message when it is open and leaves every other message as it was |
| ChatParser.StepDescribes | scripts/parse_txt_to_json.py:43-98 | every line keeps the parser state in step with the description |
| ChatParser.RunDescribes | scripts/parse_txt_to_json.py:43-98 | after any prefix of the export, the messages, current date and open message are those the description gives |
| ChatParser.ParseIsReference | scripts/parse_txt_to_json.py:38-98 | the parsed messages are exactly the description's messages |
| Processing.TrySep2Spec | scripts/processing.py:19 | the choice of the second separator succeeds exactly when a shape with either choice matches, with that shape's length |
| Processing.SecondChoices | scripts/processing.py:19 | if some 3- or 4-digit middle group matches, the middle-group choice succeeds |
| Processing.TrySecondLength | scripts/processing.py:19 | a successful middle-group choice has the length of a matching shape |
| Processing.TrySecondSpec | scripts/processing.py:19 | the middle-group choice succeeds exactly when a phone shape with that prefix matches, with that shape's length |
| Processing.TrySep1Spec | scripts/processing.py:19 | the first-separator choice succeeds exactly when a phone shape with that first group matches, with its length |
| Processing.PhoneAtSpec | scripts/processing.py:19 | `PhoneAt`: the phone pattern matches at the start exactly when one of its shapes does; the match has that shape's length, between 9 and the text length |
| Processing.ShapeLenBounds | scripts/processing.py:19 | every matching phone shape is at least nine characters long and fits within the text |
| Processing.PhoneStartsWithDigits | scripts/processing.py:19 | a phone match begins with two digits followed by a digit or a separator |
| Processing.NoPhoneUnchanged | scripts/processing.py:19 | text where no match can begin is left unchanged by the phone substitution |
| Processing.DigitFreePrefix | scripts/processing.py:19 | a digit-free prefix is copied and the substitution carries on after it |
| Processing.DashedNumber | scripts/processing.py:19 | a `ddd-dddd-dddd` number is matched as a whole, 13 characters |
| Processing.TenDigits | scripts/processing.py:19 | ten digits are matched as a whole |
| Processing.MaskedWhole | scripts/processing.py:19 | text that is one whole match becomes the phone placeholder |
| Processing.ShortTextCopied | scripts/processing.py:19 | text shorter than nine characters holds no phone number |
| Processing.SlashedPairCopied | scripts/processing.py:19 | two characters and a slash are copied: no match begins at any of them |
| Processing.SlashPairsNoPhone | scripts/processing.py:19 | digits written in slash-separated pairs contain no phone number |
| Processing.RunLength | scripts/processing.py:20 | a greedy character-class run stays within the text |
| Processing.RunLengthSpec | scripts/processing.py:20 | the greedy run consists of class characters and is maximal |
| Processing.LastDot | scripts/processing.py:20 | the domain's back-off point lies within the searched range |
| Processing.LastDotSpec | scripts/processing.py:20 | the back-off point is the last dot followed by two letters in the range, and none is found only when there is none |
| Processing.EmailAtSound | scripts/processing.py:20 | `EmailAt`: whatever the e-mail matcher accepts is a local part, `@`, a domain, `.` and at least two letters, and its length is positive and within the text |
| Processing.EmailAtComplete | scripts/processing.py:20 | `EmailAt`: whenever the e-mail pattern can match at the start, the matcher finds a match |
| Processing.NoAtSignNoEmail | scripts/processing.py:20 | text without `@` is left unchanged by the e-mail substitution |
| Processing.PhoneTransfer | scripts/processing.py:19 | the phone pattern looks no further than the first character that is neither a digit nor a separator: text agreeing up to there also has a match |
| Processing.EmailTransfer | scripts/processing.py:20 | the e-mail pattern looks no further than the first character outside its classes and `@`: text agreeing up to there also has a match |
| Processing.NoMatchInPlaceholder | scripts/processing.py:19-20 | neither pattern has a match starting inside a placeholder, whatever follows it |
| Processing.NoPhoneLeft | scripts/processing.py:19 | `ReplacePhones`: no match of the phone pattern starts anywhere in the output of the substitution |
| Processing.PhoneReplaced | scripts/processing.py:19 | `ReplacePhones`: when the text begins with a phone number, the output begins with the placeholder |
| Processing.NoEmailLeft | scripts/processing.py:20 | `ReplaceEmails`: no match of the e-mail pattern starts anywhere in the output of the substitution |
| Processing.EmailReplaced | scripts/processing.py:20 | `ReplaceEmails`: when the text begins with an e-mail address, the output begins with the placeholder |
| Processing.RemoveJamoSpec | scripts/processing.py:24 | `RemoveJamo`: after jamo deletion, a character is present exactly when it was present and is not a jamo |
| Processing.RemoveJamoUnchanged | scripts/processing.py:24 | text without jamo is unchanged |
| Processing.KeepAllowedSpec | scripts/processing.py:26 | `KeepAllowed`: after the deletion, a character is present exactly when it was present and is a word character, whitespace or `,.!?` |
| Processing.KeepAllowedAppend | scripts/processing.py:26 | the deletion works character by character, so it distributes over concatenation |
| Processing.KeepAllowedUnchanged | scripts/processing.py:26 | text made only of allowed characters is unchanged |
| Processing.BracketsDropped | scripts/processing.py:26 | the square brackets around any text are deleted |
| Processing.PlaceholderLosesBrackets | scripts/processing.py:19-26 | a placeholder `[WORD]` is reduced to `WORD` by the deletion |
| Processing.PreprocessSpec | scripts/processing.py:4-28 | `Preprocess`: text with 유로 and 환전, or with `http://`/`https://`, becomes empty; otherwise the result has no surrounding whitespace, no jamo and only allowed characters |
| Processing.Accepted | scripts/processing.py:11-16 | text with neither 유 nor `h` passes both rejection checks and goes through the substitution chain |
| Processing.LabelsAreWords | scripts/processing.py:19-20 | the placeholder words are plain letters |
| Processing.PlaceholderCleaned | scripts/processing.py:19-28 | a placeholder, cleaned on its own, becomes its bare word |
| Processing.PhoneLabelCleaned | scripts/processing.py:19-28 | the phone placeholder cleans to `PHONE` |
| Processing.DashedNumberCleaned | scripts/processing.py:4-28 | a `ddd-dddd-dddd` number cleans to `PHONE`, without brackets |
| Processing.SlashPairsKept | scripts/processing.py:26 | deleting non-word characters turns digit pairs with slashes back into the bare digits |
| Processing.DigitsAndSlashesKept | scripts/processing.py:20-24 | text of digits and slashes passes the e-mail and jamo steps unchanged |
| Processing.DigitsStripped | scripts/processing.py:28 | a string of digits is its own strip |
| Processing.SlashPairsAfterPhones | scripts/processing.py:20-28 | after the phone step, slash-separated digit pairs clean to the bare digits |
| Processing.SlashPairsCleaned | scripts/processing.py:4-28 | slash-separated digit pairs clean to the bare digits |
| Processing.TenDigitsCleaned | scripts/processing.py:4-28 | ten bare digits clean to `PHONE` |
| Processing.CleaningNotIdempotent | scripts/processing.py:4-28 | for ten digits in slash-separated pairs, one cleaning gives the digits and a second gives `PHONE`, so cleaning twice differs from cleaning once |
| Processing.NonEmpty | scripts/processing.py:44-45 | the filter keeps only non-empty messages |
| Processing.NonEmptyAppend | scripts/processing.py:44-45 | filtering distributes over concatenation |
| Processing.NonEmptyIff | scripts/processing.py:44-45 | the filter keeps nothing exactly when every message is empty |
| Processing.CleanedAppend | scripts/processing.py:44-45 | cleaning a list distributes over concatenation |
| Processing.CleanedEmptyIff | scripts/processing.py:44-45 | `Cleaned`: the cleaned list is empty exactly when every message cleans to nothing |
| Processing.CleanJoinEmptyIff | scripts/processing.py:44-49 | `CleanJoin`: a side's joined text is empty exactly when every one of its messages cleans to nothing |
| Processing.FormatRecordSpec | scripts/processing.py:40-57 | `FormatRecord`: a turn is skipped exactly when one side cleans entirely to nothing; otherwise it becomes a user entry then an assistant entry, both non-empty |
| Processing.MissingSideSkipped | scripts/processing.py:40-49 | a turn missing its user or assistant key is skipped |
| Processing.FormattedShape | scripts/processing.py:38-57 | `Formatted`: the output has at most one example per turn, each a non-empty user/assistant pair |
| Processing.ProcessRecords | scripts/processing.py:38-59 | the record loop emits, in order, the formatted example of every turn that is not skipped |

## Left out

- File and JSON input and output, directory creation and `print` are not modelled:
  - the export is given as a sequence of lines;
  - the messages file is a sequence of `ChatMessage`;
  - the turns file is a sequence of `Record`;
  - outputs are returned values.
- The two regular expressions of `parse_txt_to_json.py` (lines 16-19) are not
  modelled. Each line carries its date-search and header-match results as
  fields; the model applies the code's precedence and everything the code does
  with the captured groups.
- Date and time parsing in `build_chat_turns.py` (`parse_datetime` and the
  pre-parse loop, lines 84-116) is not modelled. It needs calendar arithmetic.
  Each message carries `_dt` as an optional count of minutes, `None` where
  `strptime` fails. The six-hour window is compared in minutes.
- Python's Unicode `\w` is approximated by a fixed set of ranges (`IsWordChar`):
  ASCII letters and digits, `_`, Latin-1 letters, Hangul syllables and jamo, and
  CJK ideographs. `\s` is the `str.isspace` set.
- Processing.ReplacePhones: differs from Python, where `\d` in a `str` pattern
  matches every Unicode decimal digit; the model's `IsDigit` is ASCII only.
  A number written in full-width digits (`０１０-１２３４-５６７８`) is masked by
  the script but copied unchanged by the model. The same holds for the `0-9`
  ranges of the e-mail pattern, which are ASCII in Python too, so
  the e-mail substitution has no such difference.
- A JSON `null` under `user` or `assistant` is not modelled; a missing key is
  treated as an empty list. With `null`, the script raises an error.
- `run_modeling.py` and `test_model.py` (model training and evaluation) are not
  part of this model.
- In the parser, the continuation branch's repeated system-line check (line 96)
  has no counterpart in `ChatParser.ReadContinuation`, because
  `ChatParser.ContinuationNeverSystem` proves it can never fire.
