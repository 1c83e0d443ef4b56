/**
 * The chat-log parser of scripts/parse_txt_to_json.py: a single forward pass
 * over the lines of an exported group chat that recognises date separators,
 * join/leave notices, message headers and continuation lines, and builds the
 * message list with each message's date, speaker, 24-hour time and content.
 *
 * The two regular expressions are not re-implemented: each input line carries
 * the groups the date regex finds in it (`dateMatch`, a search) and the groups
 * the header regex matches at its start (`headerMatch`), both taken on the
 * right-stripped line.
 */
module ChatParser {
  import opened Wrappers
  import opened Text

  /** The join notice the export writes when someone enters the room. */
  const JoinNotice: string := "님이 들어왔습니다"
  /** The leave notice the export writes when someone leaves the room. */
  const LeaveNotice: string := "님이 나갔습니다"
  /** The speaker name of the room's automatic bot. */
  const BotSpeaker: string := "오픈채팅봇"
  /** Message bodies that stand for an attachment only (`MEDIA_ONLY`). */
  const MediaOnly: set<string> := {"동영상", "사진", "이미지"}

  /** `is_system_line`: the line carries a join or a leave notice. */
  predicate IsSystemLine(line: string) {
    Contains(line, JoinNotice) || Contains(line, LeaveNotice)
  }

  /** The `오전`/`오후` marker of a header's time. */
  datatype Meridiem = Am | Pm

  /** The groups of the date regex: year, month and day digits. */
  datatype DateParts = DateParts(year: string, month: string, day: string)

  /** The groups of the header regex; `hour` is the value of the hour digits. */
  datatype HeaderParts =
    HeaderParts(speaker: string, meridiem: Meridiem, hour: nat, minute: string, content: string)

  /** One line of the export, with what the two regular expressions make of it. */
  datatype RawLine =
    RawLine(text: string, dateMatch: Option<DateParts>, headerMatch: Option<HeaderParts>)

  /** An output record. `date` is `None` before the first date separator. */
  datatype Message = Message(date: Option<string>, speaker: string, time: string, content: string)

  // ---------------------------------------------------------------------------
  // Field formatting
  // ---------------------------------------------------------------------------

  /** `n` zeros. */
  function Zeros(n: nat): (r: string)
    ensures |r| == n && forall k :: 0 <= k < n ==> r[k] == '0'
  {
    seq(n, _ => '0')
  }

  /** Python's `s.zfill(width)`: zeros inserted after an optional sign up to `width`. */
  function ZFill(s: string, width: nat): string {
    if |s| >= width then s
    else if |s| > 0 && (s[0] == '+' || s[0] == '-') then [s[0]] + Zeros(width - |s|) + s[1..]
    else Zeros(width - |s|) + s
  }

  /** A one- or two-digit string padded by `zfill(2)` keeps its value and has two digits. */
  lemma ZFillTwoDigits(s: string)
    requires 1 <= |s| <= 2 && forall k :: 0 <= k < |s| ==> IsDigit(s[k])
    ensures var r := ZFill(s, 2);
      && |r| == 2 && IsDigit(r[0]) && IsDigit(r[1])
      && DigitsValue(r) == DigitsValue(s)
  {
    if |s| == 1 {
      var r := ZFill(s, 2);
      assert r == ['0'] + s;
      LeadingZeroValue(s);
    }
  }

  /** The `current_date` string built from a date separator: `YYYY-MM-DD`. */
  function DateString(d: DateParts): string {
    d.year + "-" + ZFill(d.month, 2) + "-" + ZFill(d.day, 2)
  }

  /**
   * For the digit groups the date regex admits, the date string has the fixed
   * layout `YYYY-MM-DD` and its month and day fields read back as the matched values.
   */
  lemma DateStringLayout(d: DateParts)
    requires |d.year| == 4 && forall k :: 0 <= k < 4 ==> IsDigit(d.year[k])
    requires 1 <= |d.month| <= 2 && forall k :: 0 <= k < |d.month| ==> IsDigit(d.month[k])
    requires 1 <= |d.day| <= 2 && forall k :: 0 <= k < |d.day| ==> IsDigit(d.day[k])
    ensures var r := DateString(d);
      && |r| == 10 && r[4] == '-' && r[7] == '-'
      && r[..4] == d.year
      && (forall k :: 5 <= k < 7 ==> IsDigit(r[k])) && DigitsValue(r[5..7]) == DigitsValue(d.month)
      && (forall k :: 8 <= k < 10 ==> IsDigit(r[k])) && DigitsValue(r[8..10]) == DigitsValue(d.day)
  {
    ZFillTwoDigits(d.month);
    ZFillTwoDigits(d.day);
    var r := DateString(d);
    assert r[5..7] == ZFill(d.month, 2);
    assert r[8..10] == ZFill(d.day, 2);
  }

  /** The hour conversion: `오후` adds twelve except at 12, `오전 12` becomes 0. */
  function To24Hour(meridiem: Meridiem, hour: nat): nat {
    var h := if meridiem == Pm && hour != 12 then hour + 12 else hour;
    if meridiem == Am && h == 12 then 0 else h
  }

  /**
   * On the clock-face hours 1 to 12 the conversion is the usual one: the hour
   * modulo twelve, plus twelve in the afternoon; so it lands in 0..23.
   */
  lemma To24HourClockFace(meridiem: Meridiem, hour: nat)
    requires 1 <= hour <= 12
    ensures To24Hour(meridiem, hour) == hour % 12 + (if meridiem == Pm then 12 else 0)
    ensures To24Hour(meridiem, hour) < 24
  {
  }

  /** Two different clock-face readings never give the same 24-hour hour. */
  lemma To24HourInjective(m1: Meridiem, h1: nat, m2: Meridiem, h2: nat)
    requires 1 <= h1 <= 12 && 1 <= h2 <= 12
    requires To24Hour(m1, h1) == To24Hour(m2, h2)
    ensures m1 == m2 && h1 == h2
  {
    To24HourClockFace(m1, h1);
    To24HourClockFace(m2, h2);
  }

  /** The `time` field: the converted hour as at least two digits, a colon, the minute digits. */
  function FormatTime(meridiem: Meridiem, hour: nat, minute: string): string {
    ZFill(Decimal(To24Hour(meridiem, hour)), 2) + ":" + minute
  }

  /** For a converted hour below 100 the time reads back as `HH:` followed by the minute. */
  lemma FormatTimeRoundTrip(meridiem: Meridiem, hour: nat, minute: string)
    requires To24Hour(meridiem, hour) < 100
    ensures var t := FormatTime(meridiem, hour, minute);
      && |t| == 3 + |minute| && t[2] == ':' && t[3..] == minute
      && IsDigit(t[0]) && IsDigit(t[1])
      && DigitsValue(t[..2]) == To24Hour(meridiem, hour)
  {
    var h := To24Hour(meridiem, hour);
    DecimalRoundTrip(h);
    ZFillTwoDigits(Decimal(h));
    var t := FormatTime(meridiem, hour, minute);
    assert t[..2] == ZFill(Decimal(h), 2);
  }

  // ---------------------------------------------------------------------------
  // Line classification and the parser state
  // ---------------------------------------------------------------------------

  /**
   * What the loop body does with a line, decided in the order the script tests:
   * date separator, join/leave notice, header (bot, attachment-only, or a new
   * message), and otherwise a continuation line, which is blank or not.
   */
  datatype LineKind =
    | DateSeparator(date: string)
    | SystemNotice
    | BotHeader
    | MediaHeader
    | Header(speaker: string, time: string, content: string)
    | TextLine(line: string)
    | BlankLine

  function Classify(raw: RawLine): LineKind {
    var line := RStrip(raw.text);
    if raw.dateMatch.Some? then DateSeparator(DateString(raw.dateMatch.value))
    else if IsSystemLine(line) then SystemNotice
    else if raw.headerMatch.Some? then HeaderKind(raw.headerMatch.value)
    else ContinuationKind(line)
  }

  /** A header line: the bot's, an attachment-only message, or a new message. */
  function HeaderKind(h: HeaderParts): LineKind {
    if h.speaker == BotSpeaker then BotHeader
    else if Strip(h.content) in MediaOnly then MediaHeader
    else Header(h.speaker, FormatTime(h.meridiem, h.hour, h.minute), h.content)
  }

  /** A line that is neither a date separator, nor a notice, nor a header. */
  function ContinuationKind(line: string): LineKind {
    if Strip(line) != "" then TextLine(line) else BlankLine
  }

  /**
   * A line that reaches the continuation branch is never a join or leave notice,
   * so the notice test inside that branch never fires; and a continuation line is
   * the right-stripped input line, which is not all whitespace.
   */
  lemma ContinuationNeverSystem(raw: RawLine)
    requires Classify(raw).TextLine?
    ensures !IsSystemLine(Classify(raw).line)
    ensures Classify(raw).line == RStrip(raw.text) && Strip(Classify(raw).line) != ""
  {
  }

  /** A line is a join or leave notice exactly when one of the two notices occurs in it. */
  lemma SystemLineIff(line: string)
    ensures IsSystemLine(line) <==>
      (exists k: nat :: OccursAt(line, JoinNotice, k)) || (exists k: nat :: OccursAt(line, LeaveNotice, k))
  {
    ContainsIff(line, JoinNotice);
    ContainsIff(line, LeaveNotice);
  }

  /**
   * The branches take precedence in the script's order: a date separator wins over
   * everything, a notice over a header, and a header over a continuation. A line
   * yields a message exactly when it is a header from someone other than the bot
   * whose content is not a bare attachment, and the message keeps the speaker and
   * the content as captured.
   */
  lemma ClassifyPrecedence(raw: RawLine)
    ensures var k, line := Classify(raw), RStrip(raw.text);
      && (k.DateSeparator? <==> raw.dateMatch.Some?)
      && (k.SystemNotice? <==> raw.dateMatch.None? && IsSystemLine(line))
      && (k.Header? <==>
            && raw.dateMatch.None? && !IsSystemLine(line) && raw.headerMatch.Some?
            && raw.headerMatch.value.speaker != BotSpeaker
            && Strip(raw.headerMatch.value.content) !in MediaOnly)
      && (k.Header? ==>
            k.speaker == raw.headerMatch.value.speaker && k.content == raw.headerMatch.value.content)
      && (k.TextLine? <==>
            raw.dateMatch.None? && !IsSystemLine(line) && raw.headerMatch.None? && Strip(line) != "")
  {
  }

  function Kinds(lines: seq<RawLine>): (ks: seq<LineKind>)
    ensures |ks| == |lines|
    ensures forall k :: 0 <= k < |lines| ==> ks[k] == Classify(lines[k])
  {
    seq(|lines|, k requires 0 <= k < |lines| => Classify(lines[k]))
  }

  /** A line of the continuation branch, blank or not. */
  predicate Trailing(k: LineKind) {
    k.TextLine? || k.BlankLine?
  }

  /** What a continuation line adds to the open message. */
  function Piece(k: LineKind): string
    requires Trailing(k)
  {
    if k.TextLine? then "\n" + k.line else ""
  }

  /** `messages`, `current_date`, and `last_msg` as the index of the message it aliases. */
  datatype ParserState = ParserState(messages: seq<Message>, currentDate: Option<string>, last: Option<nat>)

  /** `last_msg`, when set, is always the message appended last. */
  predicate Valid(st: ParserState) {
    st.last.Some? ==> st.last.value == |st.messages| - 1
  }

  const Start: ParserState := ParserState([], None, None)

  /** One iteration of the parsing loop. */
  function Step(st: ParserState, k: LineKind): (st': ParserState)
    requires Valid(st)
    ensures Valid(st')
  {
    match k
    case DateSeparator(date) => st.(currentDate := Some(date), last := None)
    case SystemNotice => st.(last := None)
    case BotHeader => st.(last := None)
    case MediaHeader => st.(last := None)
    case Header(speaker, time, content) =>
      st.(messages := st.messages + [Message(st.currentDate, speaker, time, content)], last := Some(|st.messages|))
    case TextLine(line) =>
      if st.last.Some? then
        var i := st.last.value;
        var m := st.messages[i];
        st.(messages := st.messages[i := m.(content := m.content + ("\n" + line))])
      else st
    case BlankLine => st
  }

  /** The state after a sequence of classified lines. */
  function Run(ks: seq<LineKind>): (st: ParserState)
    ensures Valid(st)
    decreases |ks|
  {
    if ks == [] then Start else Step(Run(ks[..|ks| - 1]), ks[|ks| - 1])
  }

  /** The message list the script writes for the lines of an export. */
  function Parse(lines: seq<RawLine>): seq<Message> {
    Run(Kinds(lines)).messages
  }

  // ---------------------------------------------------------------------------
  // The parsing loop
  // ---------------------------------------------------------------------------

  /**
   * The body of the script's loop for one line: the branches in the script's
   * order, updating `messages`, `current_date` and `last_msg` (the index of the
   * message it refers to).
   */
  method ReadLine(raw: RawLine, messages: seq<Message>, currentDate: Option<string>, last: Option<nat>)
    returns (messages': seq<Message>, currentDate': Option<string>, last': Option<nat>)
    requires Valid(ParserState(messages, currentDate, last))
    ensures ParserState(messages', currentDate', last') ==
      Step(ParserState(messages, currentDate, last), Classify(raw))
  {
    messages', currentDate', last' := messages, currentDate, last;
    var line := RStrip(raw.text);
    if raw.dateMatch.Some? {
      currentDate' := Some(DateString(raw.dateMatch.value));
      last' := None;
    } else if IsSystemLine(line) {
      last' := None;
    } else if raw.headerMatch.Some? {
      messages', last' := ReadHeader(raw.headerMatch.value, messages, currentDate, last);
    } else {
      messages' := ReadContinuation(line, messages, currentDate, last);
    }
  }

  /** The header branch: the bot and attachment-only messages close the open message. */
  method ReadHeader(h: HeaderParts, messages: seq<Message>, currentDate: Option<string>, last: Option<nat>)
    returns (messages': seq<Message>, last': Option<nat>)
    requires Valid(ParserState(messages, currentDate, last))
    ensures ParserState(messages', currentDate, last') ==
      Step(ParserState(messages, currentDate, last), HeaderKind(h))
  {
    if h.speaker == BotSpeaker {
      messages', last' := messages, None;
    } else {
      var time := ClockTime(h.meridiem, h.hour, h.minute);
      if Strip(h.content) in MediaOnly {
        messages', last' := messages, None;
      } else {
        messages' := messages + [Message(currentDate, h.speaker, time, h.content)];
        last' := Some(|messages'| - 1);
      }
    }
  }

  /** The `time` field of a header: the hour turned to 24-hour form, padded, a colon, the minute. */
  method ClockTime(meridiem: Meridiem, hour: nat, minute: string) returns (time: string)
    ensures time == FormatTime(meridiem, hour, minute)
  {
    var h := hour;
    if meridiem == Pm && h != 12 {
      h := h + 12;
    }
    if meridiem == Am && h == 12 {
      h := 0;
    }
    time := ZFill(Decimal(h), 2) + ":" + minute;
  }

  /**
   * The continuation branch: a non-blank line extends the open message in place,
   * on a new line; anything else changes nothing.
   */
  method ReadContinuation(line: string, messages: seq<Message>, currentDate: Option<string>, last: Option<nat>)
    returns (messages': seq<Message>)
    requires Valid(ParserState(messages, currentDate, last))
    ensures ParserState(messages', currentDate, last) ==
      Step(ParserState(messages, currentDate, last), ContinuationKind(line))
  {
    messages' := messages;
    if last.Some? && Strip(line) != "" {
      var i := last.value;
      messages' := messages[i := messages[i].(content := messages[i].content + ("\n" + line))];
    }
  }

  /** The script's loop over the lines of the export. */
  method ParseLines(lines: seq<RawLine>) returns (messages: seq<Message>)
    ensures messages == Parse(lines)
    ensures messages == Reference(Kinds(lines))
  {
    ghost var ks := Kinds(lines);
    messages := [];
    var currentDate: Option<string> := None;
    var last: Option<nat> := None;
    assert ks[..0] == [];
    for n := 0 to |lines|
      invariant ParserState(messages, currentDate, last) == Run(ks[..n])
    {
      assert ks[..n + 1][..n] == ks[..n];
      messages, currentDate, last := ReadLine(lines[n], messages, currentDate, last);
    }
    assert ks[..|lines|] == ks;
    ParseIsReference(lines);
  }

  // ---------------------------------------------------------------------------
  // An independent description of the output
  // ---------------------------------------------------------------------------

  /** The positions of the header lines that become messages, in order. */
  function EmitIndices(ks: seq<LineKind>): (e: seq<nat>)
    ensures forall x :: 0 <= x < |e| ==> e[x] < |ks| && ks[e[x]].Header?
    ensures forall x, y :: 0 <= x < y < |e| ==> e[x] < e[y]
    decreases |ks|
  {
    if ks == [] then []
    else
      var n := |ks| - 1;
      var prior := EmitIndices(ks[..n]);
      assert forall x :: 0 <= x < |prior| ==> ks[prior[x]] == ks[..n][prior[x]];
      if ks[n].Header? then prior + [n] else prior
  }

  /** The date of the last date separator before position `i`, if any. */
  function DateBefore(ks: seq<LineKind>, i: nat): Option<string>
    requires i <= |ks|
    decreases i
  {
    if i == 0 then None
    else if ks[i - 1].DateSeparator? then Some(ks[i - 1].date)
    else DateBefore(ks, i - 1)
  }

  /** The text the lines from `j` on add to a message: the run of continuation lines. */
  function ContinuationText(ks: seq<LineKind>, j: nat): string
    requires j <= |ks|
    decreases |ks| - j
  {
    if j == |ks| || !Trailing(ks[j]) then "" else Piece(ks[j]) + ContinuationText(ks, j + 1)
  }

  /** The message the header at `e` becomes: its date, speaker, time, and content with continuations. */
  function MessageAt(ks: seq<LineKind>, e: nat): Message
    requires e < |ks| && ks[e].Header?
  {
    var h := ks[e];
    Message(DateBefore(ks, e), h.speaker, h.time, h.content + ContinuationText(ks, e + 1))
  }

  /** The output, described message by message. */
  function Reference(ks: seq<LineKind>): (msgs: seq<Message>)
    ensures |msgs| == |EmitIndices(ks)|
  {
    var e := EmitIndices(ks);
    seq(|e|, x requires 0 <= x < |e| => MessageAt(ks, e[x]))
  }

  // ---------------------------------------------------------------------------
  // The parser agrees with the description
  // ---------------------------------------------------------------------------

  /** Every line from `j` to the end is a continuation line. */
  predicate AllTrailing(ks: seq<LineKind>, j: nat)
    requires j <= |ks|
  {
    forall k :: j <= k < |ks| ==> Trailing(ks[k])
  }

  /** A message is still open: the last emitting header is followed only by unclassified lines. */
  predicate IsOpen(ks: seq<LineKind>) {
    var e := EmitIndices(ks);
    e != [] && AllTrailing(ks, e[|e| - 1] + 1)
  }

  /** Dates before a position do not depend on lines after it. */
  lemma {:induction false} DateBeforeAppend(ks: seq<LineKind>, k: LineKind, i: nat)
    requires i <= |ks|
    ensures DateBefore(ks + [k], i) == DateBefore(ks, i)
    decreases i
  {
    if i > 0 {
      assert (ks + [k])[i - 1] == ks[i - 1];
      DateBeforeAppend(ks, k, i - 1);
    }
  }

  /** A new line extends a continuation exactly when everything from `j` on is a continuation line. */
  lemma {:induction false} ContinuationTextAppend(ks: seq<LineKind>, k: LineKind, j: nat)
    requires j <= |ks|
    ensures ContinuationText(ks + [k], j) ==
      ContinuationText(ks, j) + (if AllTrailing(ks, j) && Trailing(k) then Piece(k) else "")
    decreases |ks| - j
  {
    var ks' := ks + [k];
    if j == |ks| {
      assert ks'[j] == k;
      if Trailing(k) {
        assert ContinuationText(ks', j + 1) == "";
      }
    } else {
      assert ks'[j] == ks[j];
      if Trailing(ks[j]) {
        ContinuationTextAppend(ks, k, j + 1);
        var extra := if AllTrailing(ks, j + 1) && Trailing(k) then Piece(k) else "";
        assert AllTrailing(ks, j) == AllTrailing(ks, j + 1);
        AppendAssoc(Piece(ks[j]), ContinuationText(ks, j + 1), extra);
      } else {
        assert !AllTrailing(ks, j);
      }
    }
  }

  /** The message-opening positions of a longer prefix extend those of the shorter one. */
  lemma EmitIndicesAppend(ks: seq<LineKind>, k: LineKind)
    ensures EmitIndices(ks + [k]) == EmitIndices(ks) + (if k.Header? then [|ks|] else [])
  {
    assert (ks + [k])[..|ks|] == ks;
  }

  /** What the parser state records after any prefix of the lines. */
  predicate Describes(st: ParserState, ks: seq<LineKind>) {
    && st.messages == Reference(ks)
    && st.currentDate == DateBefore(ks, |ks|)
    && st.last == (if IsOpen(ks) then Some(|EmitIndices(ks)| - 1) else None)
  }

  /** An earlier message is never open: a later message header ends its run. */
  lemma ClosedBeforeLast(ks: seq<LineKind>, x: nat)
    requires x + 1 < |EmitIndices(ks)|
    ensures !AllTrailing(ks, EmitIndices(ks)[x] + 1)
  {
    var e := EmitIndices(ks);
    assert !Trailing(ks[e[x + 1]]);
  }

  /** `m` with `s` appended to its content. */
  function Extend(m: Message, s: string): Message {
    m.(content := m.content + s)
  }

  /** A message already described keeps its fields; a new line can only extend its content. */
  lemma OldMessage(ks: seq<LineKind>, k: LineKind, x: nat)
    requires x < |EmitIndices(ks)|
    ensures var e := EmitIndices(ks);
      && x < |EmitIndices(ks + [k])| && EmitIndices(ks + [k])[x] == e[x]
      && Reference(ks + [k])[x] ==
           Extend(Reference(ks)[x], if AllTrailing(ks, e[x] + 1) && Trailing(k) then Piece(k) else "")
  {
    var e := EmitIndices(ks);
    var ks' := ks + [k];
    EmitIndicesAppend(ks, k);
    DateBeforeAppend(ks, k, e[x]);
    ContinuationTextAppend(ks, k, e[x] + 1);
    assert ks'[e[x]] == ks[e[x]];
    var extra := if AllTrailing(ks, e[x] + 1) && Trailing(k) then Piece(k) else "";
    AppendAssoc(ks[e[x]].content, ContinuationText(ks, e[x] + 1), extra);
    assert MessageAt(ks', e[x]) == Extend(MessageAt(ks, e[x]), extra);
  }

  /** A line that is not a continuation text line leaves an old message as it was. */
  lemma OldMessageKept(ks: seq<LineKind>, k: LineKind, x: nat)
    requires !k.TextLine? && x < |EmitIndices(ks)|
    ensures x < |Reference(ks + [k])| && Reference(ks + [k])[x] == Reference(ks)[x]
  {
    OldMessage(ks, k, x);
    var m := Reference(ks)[x];
    assert m.content + "" == m.content;
  }

  /** A line that closes the open message, or a blank line, leaves every old message as it was. */
  lemma OldMessagesKept(ks: seq<LineKind>, k: LineKind)
    requires !k.TextLine?
    ensures Reference(ks + [k])[..|EmitIndices(ks)|] == Reference(ks)
  {
    var n := |EmitIndices(ks)|;
    EmitIndicesAppend(ks, k);
    var old' := Reference(ks + [k])[..n];
    forall x | 0 <= x < n ensures old'[x] == Reference(ks)[x] {
      OldMessageKept(ks, k, x);
    }
  }

  /** After a line that is neither a header nor a continuation line, no message is open. */
  lemma ClosedAfter(ks: seq<LineKind>, k: LineKind)
    requires !k.Header? && !Trailing(k)
    ensures !IsOpen(ks + [k])
  {
    EmitIndicesAppend(ks, k);
    var e' := EmitIndices(ks + [k]);
    if e' != [] {
      assert e'[|e'| - 1] < |ks|;
      assert (ks + [k])[|ks|] == k;
    }
  }

  /** A continuation line, blank or not, leaves the open message open. */
  lemma OpenAfterTrailing(ks: seq<LineKind>, k: LineKind)
    requires Trailing(k)
    ensures IsOpen(ks + [k]) == IsOpen(ks)
  {
    EmitIndicesAppend(ks, k);
    var e := EmitIndices(ks);
    if e != [] {
      var j := e[|e| - 1] + 1;
      assert AllTrailing(ks + [k], j) == AllTrailing(ks, j) by {
        assert (ks + [k])[|ks|] == k;
        assert forall i :: j <= i < |ks| ==> (ks + [k])[i] == ks[i];
      }
    }
  }

  /** A date separator, a notice or a dropped header keeps the messages and closes the open one. */
  lemma StepClosing(st: ParserState, ks: seq<LineKind>, k: LineKind)
    requires Valid(st) && Describes(st, ks)
    requires k.DateSeparator? || k.SystemNotice? || k.BotHeader? || k.MediaHeader?
    ensures Describes(Step(st, k), ks + [k])
  {
    EmitIndicesAppend(ks, k);
    DateBeforeAppend(ks, k, |ks|);
    assert (ks + [k])[|ks|] == k;
    OldMessagesKept(ks, k);
    ClosedAfter(ks, k);
  }

  /** A blank line changes nothing. */
  lemma StepBlank(st: ParserState, ks: seq<LineKind>)
    requires Valid(st) && Describes(st, ks)
    ensures Describes(Step(st, BlankLine), ks + [BlankLine])
  {
    EmitIndicesAppend(ks, BlankLine);
    DateBeforeAppend(ks, BlankLine, |ks|);
    assert (ks + [BlankLine])[|ks|] == BlankLine;
    OldMessagesKept(ks, BlankLine);
    OpenAfterTrailing(ks, BlankLine);
  }

  /** A message header appends a message carrying the current date, and opens it. */
  lemma StepHeader(st: ParserState, ks: seq<LineKind>, k: LineKind)
    requires Valid(st) && Describes(st, ks) && k.Header?
    ensures Describes(Step(st, k), ks + [k])
  {
    var ks' := ks + [k];
    var e := EmitIndices(ks);
    EmitIndicesAppend(ks, k);
    DateBeforeAppend(ks, k, |ks|);
    assert ks'[|ks|] == k;
    OldMessagesKept(ks, k);
    var e' := EmitIndices(ks');
    assert e'[|e|] == |ks|;
    assert AllTrailing(ks', |ks'|);
    assert ContinuationText(ks', |ks| + 1) == "";
    assert Reference(ks')[|e|] == Message(st.currentDate, k.speaker, k.time, k.content);
    assert Reference(ks') == Reference(ks')[..|e|] + [Reference(ks')[|e|]];
  }

  /** A continuation line extends the open message, and only that one. */
  lemma StepText(st: ParserState, ks: seq<LineKind>, k: LineKind)
    requires Valid(st) && Describes(st, ks) && k.TextLine?
    ensures Describes(Step(st, k), ks + [k])
  {
    var ks' := ks + [k];
    var e := EmitIndices(ks);
    EmitIndicesAppend(ks, k);
    DateBeforeAppend(ks, k, |ks|);
    assert ks'[|ks|] == k;
    OpenAfterTrailing(ks, k);
    var st' := Step(st, k);
    forall x | 0 <= x < |e|
      ensures Reference(ks')[x] == st'.messages[x]
    {
      TextExtends(ks, k, x);
    }
  }

  /** A continuation line extends only the last message, and only while it is open. */
  lemma TextExtends(ks: seq<LineKind>, k: LineKind, x: nat)
    requires k.TextLine? && x < |EmitIndices(ks)|
    ensures x < |Reference(ks + [k])|
    ensures Reference(ks + [k])[x] ==
      Extend(Reference(ks)[x], if x + 1 == |EmitIndices(ks)| && IsOpen(ks) then Piece(k) else "")
  {
    OldMessage(ks, k, x);
    if x + 1 < |EmitIndices(ks)| {
      ClosedBeforeLast(ks, x);
    }
  }

  /** One step keeps the description. */
  lemma StepDescribes(st: ParserState, ks: seq<LineKind>, k: LineKind)
    requires Valid(st) && Describes(st, ks)
    ensures Describes(Step(st, k), ks + [k])
  {
    match k
    case Header(_, _, _) => StepHeader(st, ks, k);
    case TextLine(_) => StepText(st, ks, k);
    case BlankLine => StepBlank(st, ks);
    case _ => StepClosing(st, ks, k);
  }

  /** The parser's fold computes the description, at every prefix. */
  lemma {:induction false} RunDescribes(ks: seq<LineKind>)
    ensures Describes(Run(ks), ks)
    decreases |ks|
  {
    if ks != [] {
      var n := |ks| - 1;
      RunDescribes(ks[..n]);
      StepDescribes(Run(ks[..n]), ks[..n], ks[n]);
      assert ks[..n] + [ks[n]] == ks;
    }
  }

  /** The parser's output is the description: one message per emitting header, in order. */
  lemma ParseIsReference(lines: seq<RawLine>)
    ensures Parse(lines) == Reference(Kinds(lines))
  {
    RunDescribes(Kinds(lines));
  }
}
