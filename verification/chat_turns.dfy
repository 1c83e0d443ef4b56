/**
 * The turn segmenter of scripts/build_chat_turns.py: the two-cursor forward
 * scan that groups a timestamped message stream into (question, answers) turns.
 *
 * A message's parsed timestamp (`_dt`) is an optional number of minutes since
 * an arbitrary epoch; `None` stands for a date or time that did not parse.
 * The scan is specified for any pair of message tests (`Rules`); the script's
 * own tests are `Script`, built from the classifiers of module Classifiers.
 */
module ChatTurns {
  import opened Wrappers
  import opened Text
  import opened Classifiers

  /** `MAX_HOURS`: how long after a question an answer is still accepted. */
  const MaxHours: int := 6
  const MaxWindowMinutes: int := MaxHours * 60

  /** The two message tests the scan consults. */
  datatype Rules = Rules(isQuestion: string -> bool, isAnswerLike: string -> bool)

  /** The script's tests: `is_question` and `is_answer_like`. */
  const Script: Rules := Rules(IsQuestion, IsAnswerLike)

  // ---------------------------------------------------------------------------
  // Messages, turns and the specification of the scan
  // ---------------------------------------------------------------------------

  /** A parsed message as the segmenter sees it: its content and its `_dt`. */
  datatype ChatMessage = ChatMessage(content: string, dt: Option<int>)

  /** One output line: the question's content and the collected answers. */
  datatype Turn = Turn(user: seq<string>, assistant: seq<string>)

  /** A message that can open a turn: timestamped and a question. */
  predicate Opens(r: Rules, m: ChatMessage) {
    m.dt.Some? && r.isQuestion(m.content)
  }

  /** What the inner scan does with a message, relative to the question's time. */
  datatype Verdict = Skip | Stop | Collect

  function Examine(r: Rules, m: ChatMessage, questionTime: int): (v: Verdict)
    ensures v == Skip <==>
      m.dt.None? ||
      (m.dt.value - questionTime <= MaxWindowMinutes && !r.isQuestion(m.content) && !r.isAnswerLike(m.content))
    ensures v == Stop <==>
      m.dt.Some? && (m.dt.value - questionTime > MaxWindowMinutes || r.isQuestion(m.content))
  {
    match m.dt
    case None => Skip
    case Some(t) =>
      if t - questionTime > MaxWindowMinutes then Stop
      else if r.isQuestion(m.content) then Stop
      else if r.isAnswerLike(m.content) then Collect
      else Skip
  }

  /** The verdicts of every message against one question time. */
  function Verdicts(r: Rules, msgs: seq<ChatMessage>, questionTime: int): (vs: seq<Verdict>)
    ensures |vs| == |msgs|
    ensures forall k :: 0 <= k < |msgs| ==> vs[k] == Examine(r, msgs[k], questionTime)
  {
    seq(|msgs|, k requires 0 <= k < |msgs| => Examine(r, msgs[k], questionTime))
  }

  /** Where an inner scan started at `j` stops: the first verdict `Stop`, or the end. */
  function ScanStop(vs: seq<Verdict>, j: nat): (e: nat)
    requires j <= |vs|
    ensures j <= e <= |vs|
    ensures forall k :: j <= k < e ==> vs[k] != Stop
    ensures e < |vs| ==> vs[e] == Stop
    decreases |vs| - j
  {
    if j == |vs| then j
    else if vs[j] == Stop then j
    else ScanStop(vs, j + 1)
  }

  predicate Increasing(s: seq<nat>) {
    forall x, y :: 0 <= x < y < |s| ==> s[x] < s[y]
  }

  /** The indices an inner scan started at `j` collects, in order. */
  function ScanAnswers(vs: seq<Verdict>, j: nat): (ans: seq<nat>)
    requires j <= |vs|
    ensures forall x :: 0 <= x < |ans| ==> j <= ans[x] < ScanStop(vs, j) && vs[ans[x]] == Collect
    decreases |vs| - j
  {
    if j == |vs| then []
    else match vs[j]
      case Stop => []
      case Collect =>
        var rest := ScanAnswers(vs, j + 1);
        var ans := [j] + rest;
        assert forall x :: 1 <= x < |ans| ==> ans[x] == rest[x - 1];
        ans
      case Skip => ScanAnswers(vs, j + 1)
  }

  /** The scan misses nothing: every collectable message before the stop is collected. */
  lemma {:induction false} ScanAnswersComplete(vs: seq<Verdict>, j: nat)
    requires j <= |vs|
    ensures forall a :: j <= a < ScanStop(vs, j) && vs[a] == Collect ==> a in ScanAnswers(vs, j)
    decreases |vs| - j
  {
    if j < |vs| && vs[j] != Stop {
      ScanAnswersComplete(vs, j + 1);
      if vs[j] == Collect {
        assert ScanAnswers(vs, j) == [j] + ScanAnswers(vs, j + 1);
      }
    }
  }

  /** The collected indices come in increasing order. */
  lemma {:induction false} ScanAnswersIncreasing(vs: seq<Verdict>, j: nat)
    requires j <= |vs|
    ensures Increasing(ScanAnswers(vs, j))
    decreases |vs| - j
  {
    if j < |vs| && vs[j] != Stop {
      ScanAnswersIncreasing(vs, j + 1);
    }
  }

  /** An emitted turn by indices: the question, the answers, and where its scan stopped. */
  datatype Span = Span(question: nat, answers: seq<nat>, stop: nat)

  predicate InRange(msgs: seq<ChatMessage>, sp: Span) {
    sp.question < sp.stop <= |msgs| && forall k :: 0 <= k < |sp.answers| ==> sp.answers[k] < sp.stop
  }

  /** The turns the outer cursor emits from position `i` on. */
  function SpansFrom(r: Rules, msgs: seq<ChatMessage>, i: nat): (spans: seq<Span>)
    requires i <= |msgs|
    ensures forall sp :: sp in spans ==> i <= sp.question && InRange(msgs, sp)
    decreases |msgs| - i
  {
    if i == |msgs| then []
    else if !Opens(r, msgs[i]) then SpansFrom(r, msgs, i + 1)
    else
      var vs := Verdicts(r, msgs, msgs[i].dt.value);
      var stop := ScanStop(vs, i + 1);
      var answers := ScanAnswers(vs, i + 1);
      (if answers != [] then [Span(i, answers, stop)] else []) + SpansFrom(r, msgs, stop)
  }

  /** The contents of the messages at the given indices. */
  function Contents(msgs: seq<ChatMessage>, idx: seq<nat>): (r: seq<string>)
    requires forall k :: 0 <= k < |idx| ==> idx[k] < |msgs|
    ensures |r| == |idx|
    ensures forall k :: 0 <= k < |idx| ==> r[k] == msgs[idx[k]].content
    decreases |idx|
  {
    if idx == [] then [] else [msgs[idx[0]].content] + Contents(msgs, idx[1..])
  }

  function TurnOf(msgs: seq<ChatMessage>, sp: Span): Turn
    requires InRange(msgs, sp)
  {
    Turn([msgs[sp.question].content], Contents(msgs, sp.answers))
  }

  function Render(msgs: seq<ChatMessage>, spans: seq<Span>): (turns: seq<Turn>)
    requires forall sp :: sp in spans ==> InRange(msgs, sp)
    ensures |turns| == |spans|
    decreases |spans|
  {
    if spans == [] then [] else [TurnOf(msgs, spans[0])] + Render(msgs, spans[1..])
  }

  /** The turns the scan emits under rules `r`. */
  function Segment(r: Rules, msgs: seq<ChatMessage>): seq<Turn> {
    Render(msgs, SpansFrom(r, msgs, 0))
  }

  /** The turns the script writes for a message array. */
  function Turns(msgs: seq<ChatMessage>): seq<Turn> {
    Segment(Script, msgs)
  }

  // ---------------------------------------------------------------------------
  // The segmentation loop
  // ---------------------------------------------------------------------------

  /**
   * The inner scan of the turn-building loop: from the message after the question
   * at `i`, collect answer-like messages until the window closes, another question
   * appears, or the messages run out. Returns the collected contents and where the
   * scan stopped.
   */
  method ScanAfterQuestion(msgs: seq<ChatMessage>, i: nat, questionTime: int)
    returns (assistantContents: seq<string>, j: nat)
    requires i < |msgs|
    ensures j == ScanStop(Verdicts(Script, msgs, questionTime), i + 1)
    ensures assistantContents == Contents(msgs, ScanAnswers(Verdicts(Script, msgs, questionTime), i + 1))
  {
    ghost var vs := Verdicts(Script, msgs, questionTime);
    ghost var answers := ScanAnswers(vs, i + 1);
    var n := |msgs|;
    assistantContents := [];
    j := i + 1;
    AppendEmpty(Contents(msgs, answers));
    while j < n
      invariant i + 1 <= j <= n
      invariant ScanStop(vs, j) == ScanStop(vs, i + 1)
      invariant assistantContents + Contents(msgs, ScanAnswers(vs, j)) == Contents(msgs, answers)
      decreases n - j
    {
      var next := msgs[j];
      assert vs[j] == Examine(Script, next, questionTime);
      if next.dt.None? {
        ScanStep(msgs, vs, j, assistantContents);
        j := j + 1;
        continue;
      }
      if next.dt.value - questionTime > MaxWindowMinutes {
        break;
      }
      if IsQuestion(next.content) {
        break;
      }
      ScanStep(msgs, vs, j, assistantContents);
      if IsAnswerLike(next.content) {
        assistantContents := assistantContents + [next.content];
      }
      j := j + 1;
    }
  }

  /**
   * A message the scan passes over keeps the stop where it was, and moves its
   * content, when collected, from the part still to scan to the part collected.
   */
  lemma ScanStep(msgs: seq<ChatMessage>, vs: seq<Verdict>, j: nat, acc: seq<string>)
    requires |vs| == |msgs| && j < |vs| && vs[j] != Stop
    ensures ScanStop(vs, j) == ScanStop(vs, j + 1)
    ensures acc + Contents(msgs, ScanAnswers(vs, j)) ==
      (if vs[j] == Collect then acc + [msgs[j].content] else acc) + Contents(msgs, ScanAnswers(vs, j + 1))
  {
    if vs[j] == Collect {
      var rest := ScanAnswers(vs, j + 1);
      assert ScanAnswers(vs, j) == [j] + rest;
      assert Contents(msgs, [j] + rest) == [msgs[j].content] + Contents(msgs, rest);
      AppendAssoc(acc, [msgs[j].content], Contents(msgs, rest));
    }
  }

  /** The turn-building loop: outer cursor `i`, inner scan to `j`, `i = j` after each question. */
  method BuildChatTurns(msgs: seq<ChatMessage>) returns (turns: seq<Turn>)
    ensures turns == Turns(msgs)
    ensures forall t :: t in turns ==>
      && |t.user| == 1
      && IsQuestion(t.user[0])
      && t.assistant != []
      && forall a :: a in t.assistant ==> IsAnswerLike(a)
  {
    ghost var r := Script;
    turns := [];
    var i := 0;
    var n := |msgs|;
    AppendEmpty(Turns(msgs));
    while i < n
      invariant 0 <= i <= n
      invariant turns + Render(msgs, SpansFrom(r, msgs, i)) == Turns(msgs)
      decreases n - i
    {
      var msg := msgs[i];
      if msg.dt.None? || !IsQuestion(msg.content) {
        assert !Opens(r, msg);
        i := i + 1;
        continue;
      }
      var questionTime := msg.dt.value;
      var userContents := [msg.content];
      var assistantContents, j := ScanAfterQuestion(msgs, i, questionTime);
      ghost var answers := ScanAnswers(Verdicts(r, msgs, questionTime), i + 1);
      ghost var spans := SpansFrom(r, msgs, j);
      if assistantContents != [] {
        ghost var sp := Span(i, answers, j);
        var turn := Turn(userContents, assistantContents);
        ghost var later := Render(msgs, spans);
        assert SpansFrom(r, msgs, i) == [sp] + spans;
        assert Render(msgs, [sp] + spans) == [turn] + later by {
          assert ([sp] + spans)[1..] == spans;
          assert TurnOf(msgs, sp) == turn;
        }
        AppendAssoc(turns, [turn], later);
        turns := turns + [turn];
      } else {
        assert SpansFrom(r, msgs, i) == spans;
      }
      i := j;
    }
    TurnsShape(msgs);
  }

  // ---------------------------------------------------------------------------
  // Properties of the segmentation
  // ---------------------------------------------------------------------------

  /** Everything one emitted turn promises about the messages it covers. */
  ghost predicate ValidSpan(r: Rules, msgs: seq<ChatMessage>, sp: Span) {
    && sp.question < sp.stop <= |msgs|
    && Opens(r, msgs[sp.question])
    && var questionTime := msgs[sp.question].dt.value;
    && sp.answers != []
    && Increasing(sp.answers)
    // each answer is a later, timestamped message within the window that collects
    && (forall x :: 0 <= x < |sp.answers| ==>
          sp.question < sp.answers[x] < sp.stop && Examine(r, msgs[sp.answers[x]], questionTime) == Collect)
    // every collectable message before the stop was collected
    && (forall k :: sp.question < k < sp.stop && Examine(r, msgs[k], questionTime) == Collect ==> k in sp.answers)
    // no message between the question and the stop ended the scan
    && (forall k :: sp.question < k < sp.stop ==> Examine(r, msgs[k], questionTime) != Stop)
    // the scan ended at a message that stops it, or at the end of the array
    && (sp.stop < |msgs| ==> Examine(r, msgs[sp.stop], questionTime) == Stop)
  }

  /** Turns come in strictly increasing question order and their index ranges do not overlap. */
  ghost predicate Ordered(spans: seq<Span>) {
    forall x, y :: 0 <= x < y < |spans| ==> spans[x].stop <= spans[y].question
  }

  /** The span a question at `i` opens is valid when its scan collected something. */
  lemma FirstSpanValid(r: Rules, msgs: seq<ChatMessage>, i: nat)
    requires i < |msgs| && Opens(r, msgs[i])
    requires ScanAnswers(Verdicts(r, msgs, msgs[i].dt.value), i + 1) != []
    ensures var vs := Verdicts(r, msgs, msgs[i].dt.value);
      ValidSpan(r, msgs, Span(i, ScanAnswers(vs, i + 1), ScanStop(vs, i + 1)))
  {
    var vs := Verdicts(r, msgs, msgs[i].dt.value);
    ScanAnswersComplete(vs, i + 1);
    ScanAnswersIncreasing(vs, i + 1);
  }

  /** Every emitted span is valid, and the spans are ordered. */
  lemma {:induction false} SpansValid(r: Rules, msgs: seq<ChatMessage>, i: nat)
    requires i <= |msgs|
    ensures forall sp :: sp in SpansFrom(r, msgs, i) ==> ValidSpan(r, msgs, sp)
    ensures Ordered(SpansFrom(r, msgs, i))
    decreases |msgs| - i
  {
    if i < |msgs| {
      if !Opens(r, msgs[i]) {
        SpansValid(r, msgs, i + 1);
      } else {
        var vs := Verdicts(r, msgs, msgs[i].dt.value);
        var stop := ScanStop(vs, i + 1);
        var answers := ScanAnswers(vs, i + 1);
        SpansValid(r, msgs, stop);
        if answers != [] {
          var sp := Span(i, answers, stop);
          FirstSpanValid(r, msgs, i);
          var tail := SpansFrom(r, msgs, stop);
          var spans := [sp] + tail;
          assert SpansFrom(r, msgs, i) == spans;
          forall x, y | 0 <= x < y < |spans| ensures spans[x].stop <= spans[y].question {
            if x > 0 {
              assert spans[x] == tail[x - 1];
            }
            assert spans[y] in tail;
          }
        }
      }
    }
  }

  /** Each question index opens at most one turn: question indices strictly increase. */
  lemma QuestionsIncrease(r: Rules, msgs: seq<ChatMessage>)
    ensures var spans := SpansFrom(r, msgs, 0);
      forall x, y :: 0 <= x < y < |spans| ==> spans[x].question < spans[y].question
  {
    SpansValid(r, msgs, 0);
    var spans := SpansFrom(r, msgs, 0);
    forall x, y | 0 <= x < y < |spans| ensures spans[x].question < spans[y].question {
      assert spans[x] in spans;
    }
  }

  /** The rendered turns have the shape the script writes. */
  lemma {:induction false} RenderShape(r: Rules, msgs: seq<ChatMessage>, spans: seq<Span>)
    requires forall sp :: sp in spans ==> InRange(msgs, sp) && ValidSpan(r, msgs, sp)
    ensures forall t :: t in Render(msgs, spans) ==>
      && |t.user| == 1
      && r.isQuestion(t.user[0])
      && t.assistant != []
      && forall a :: a in t.assistant ==> r.isAnswerLike(a)
    decreases |spans|
  {
    if spans != [] {
      RenderShape(r, msgs, spans[1..]);
      var sp := spans[0];
      assert sp in spans;
      var t := TurnOf(msgs, sp);
      var qt := msgs[sp.question].dt.value;
      forall a | a in t.assistant ensures r.isAnswerLike(a) {
        var k :| 0 <= k < |t.assistant| && t.assistant[k] == a;
        assert Examine(r, msgs[sp.answers[k]], qt) == Collect;
      }
    }
  }

  /** Every turn has one question and at least one answer, as the rules classify them. */
  lemma SegmentShape(r: Rules, msgs: seq<ChatMessage>)
    ensures forall t :: t in Segment(r, msgs) ==>
      && |t.user| == 1
      && r.isQuestion(t.user[0])
      && t.assistant != []
      && forall a :: a in t.assistant ==> r.isAnswerLike(a)
  {
    SpansValid(r, msgs, 0);
    RenderShape(r, msgs, SpansFrom(r, msgs, 0));
  }

  /** The script's turns: a question and a non-empty list of answer-like messages. */
  lemma TurnsShape(msgs: seq<ChatMessage>)
    ensures forall t :: t in Turns(msgs) ==>
      && |t.user| == 1
      && IsQuestion(t.user[0])
      && t.assistant != []
      && forall a :: a in t.assistant ==> IsAnswerLike(a)
  {
    SegmentShape(Script, msgs);
  }

  /** A question directly followed by another timestamped question yields no turn. */
  lemma QuestionThenQuestion(r: Rules, msgs: seq<ChatMessage>, i: nat)
    requires i + 1 < |msgs| && Opens(r, msgs[i]) && Opens(r, msgs[i + 1])
    ensures SpansFrom(r, msgs, i) == SpansFrom(r, msgs, i + 1)
  {
    var vs := Verdicts(r, msgs, msgs[i].dt.value);
    assert vs[i + 1] == Stop;
    assert ScanStop(vs, i + 1) == i + 1;
  }

  /**
   * The message that stopped a scan is examined again by the outer cursor: when it
   * opens a turn of its own, that turn is the next one emitted.
   */
  lemma StopMessageReexamined(r: Rules, msgs: seq<ChatMessage>, i: nat)
    requires i < |msgs| && Opens(r, msgs[i])
    ensures var vs := Verdicts(r, msgs, msgs[i].dt.value);
      var stop := ScanStop(vs, i + 1);
      var answers := ScanAnswers(vs, i + 1);
      && SpansFrom(r, msgs, i) == (if answers != [] then [Span(i, answers, stop)] else []) + SpansFrom(r, msgs, stop)
      && (stop < |msgs| && Opens(r, msgs[stop]) && ScanAnswers(Verdicts(r, msgs, msgs[stop].dt.value), stop + 1) != [] ==>
            SpansFrom(r, msgs, stop) != [] && SpansFrom(r, msgs, stop)[0].question == stop)
  {
  }

  /**
   * Under any rules: an answer exactly six hours after the question is kept, and a
   * message one minute later closes the window.
   */
  lemma WindowBoundaryUnder(r: Rules, q: string, a1: string, a2: string, t0: int)
    requires r.isQuestion(q) && !r.isQuestion(a1) && r.isAnswerLike(a1)
    ensures Segment(r, [ChatMessage(q, Some(t0)),
                        ChatMessage(a1, Some(t0 + MaxWindowMinutes)),
                        ChatMessage(a2, Some(t0 + MaxWindowMinutes + 1))]) == [Turn([q], [a1])]
  {
    var msgs := [ChatMessage(q, Some(t0)),
                 ChatMessage(a1, Some(t0 + MaxWindowMinutes)),
                 ChatMessage(a2, Some(t0 + MaxWindowMinutes + 1))];
    var vs := Verdicts(r, msgs, t0);
    assert vs[1] == Collect && vs[2] == Stop;
    assert ScanStop(vs, 1) == 2;
    assert ScanAnswers(vs, 1) == [1] by {
      assert ScanAnswers(vs, 2) == [];
    }
    assert SpansFrom(r, msgs, 2) == [] by {
      if Opens(r, msgs[2]) {
        assert ScanAnswers(Verdicts(r, msgs, t0 + MaxWindowMinutes + 1), 3) == [];
      }
      assert SpansFrom(r, msgs, 3) == [];
    }
    assert SpansFrom(r, msgs, 0) == [Span(0, [1], 2)];
    assert Contents(msgs, [1]) == [a1];
  }

  /** An answer exactly six hours after the question is kept; one a minute later stops the scan. */
  lemma WindowBoundary(q: string, a1: string, a2: string, t0: int)
    requires IsQuestion(q) && IsAnswerLike(a1)
    ensures Turns([ChatMessage(q, Some(t0)),
                   ChatMessage(a1, Some(t0 + MaxWindowMinutes)),
                   ChatMessage(a2, Some(t0 + MaxWindowMinutes + 1))]) == [Turn([q], [a1])]
  {
    NeverBoth(a1);
    WindowBoundaryUnder(Script, q, a1, a2, t0);
  }

  /**
   * Under any rules: of two messages one hour and seven hours after a question, only
   * the first is collected, whatever the second is.
   */
  lemma LateAnswerDroppedUnder(r: Rules, q: string, a1: string, a2: string, t0: int)
    requires r.isQuestion(q) && !r.isQuestion(a1) && r.isAnswerLike(a1)
    ensures Segment(r, [ChatMessage(q, Some(t0)),
                        ChatMessage(a1, Some(t0 + 60)),
                        ChatMessage(a2, Some(t0 + 7 * 60))]) == [Turn([q], [a1])]
  {
    var msgs := [ChatMessage(q, Some(t0)),
                 ChatMessage(a1, Some(t0 + 60)),
                 ChatMessage(a2, Some(t0 + 7 * 60))];
    var vs := Verdicts(r, msgs, t0);
    assert vs[1] == Collect && vs[2] == Stop;
    assert ScanStop(vs, 1) == 2;
    assert ScanAnswers(vs, 1) == [1] by {
      assert ScanAnswers(vs, 2) == [];
    }
    assert SpansFrom(r, msgs, 2) == [] by {
      if Opens(r, msgs[2]) {
        assert ScanAnswers(Verdicts(r, msgs, t0 + 7 * 60), 3) == [];
      }
      assert SpansFrom(r, msgs, 3) == [];
    }
    assert SpansFrom(r, msgs, 0) == [Span(0, [1], 2)];
    assert Contents(msgs, [1]) == [a1];
  }

  /** Of two messages one hour and seven hours after a question, only the first is collected. */
  lemma SevenHourAnswerDropped(q: string, a1: string, a2: string, t0: int)
    requires IsQuestion(q) && IsAnswerLike(a1)
    ensures Turns([ChatMessage(q, Some(t0)),
                   ChatMessage(a1, Some(t0 + 60)),
                   ChatMessage(a2, Some(t0 + 7 * 60))]) == [Turn([q], [a1])]
  {
    NeverBoth(a1);
    LateAnswerDroppedUnder(Script, q, a1, a2, t0);
  }

  /** A message without a timestamp is skipped by the scan: it neither stops nor joins a turn. */
  lemma UntimedMessageTransparent(r: Rules, msgs: seq<ChatMessage>, questionTime: int, j: nat)
    requires j < |msgs| && msgs[j].dt.None?
    ensures ScanStop(Verdicts(r, msgs, questionTime), j) == ScanStop(Verdicts(r, msgs, questionTime), j + 1)
    ensures ScanAnswers(Verdicts(r, msgs, questionTime), j) == ScanAnswers(Verdicts(r, msgs, questionTime), j + 1)
    ensures SpansFrom(r, msgs, j) == SpansFrom(r, msgs, j + 1)
  {
  }
}
