/**
 * The message classifiers of scripts/build_chat_turns.py: a message is a
 * question when its stripped text carries a question mark, a question-like
 * sentence ending or an intent phrase; it is answer-like when its stripped text
 * is at least five characters long and is not a question.
 */
module Classifiers {
  import opened Text

  /** Sentence endings that mark a question (`QUESTION_ENDINGS`). */
  const QuestionEndings: seq<string> :=
    ["나요", "인가요", "되나요", "할까요", "어디", "어떻게", "왜", "뭐", "무엇"]

  /** Phrases expressing confusion or a request for help (`QUESTION_INTENT_PHRASES`). */
  const QuestionIntentPhrases: seq<string> :=
    ["모르겠", "헷갈", "이해가 안", "알려주", "어떻게 해야", "추천"]

  /** Stripped messages shorter than this are never answer-like. */
  const MinAnswerLength: nat := 5

  /** The early-return loop over an endings table. */
  function EndsWithAny(t: string, endings: seq<string>): (b: bool)
    ensures b <==> exists k :: 0 <= k < |endings| && EndsWith(t, endings[k])
    decreases |endings|
  {
    if endings == [] then false
    else if EndsWith(t, endings[0]) then true
    else
      var b := EndsWithAny(t, endings[1..]);
      assert forall k :: 1 <= k < |endings| ==> endings[k] == endings[1..][k - 1];
      b
  }

  /** The early-return loop over a phrase table. */
  function ContainsAny(t: string, phrases: seq<string>): (b: bool)
    ensures b <==> exists k :: 0 <= k < |phrases| && Contains(t, phrases[k])
    decreases |phrases|
  {
    if phrases == [] then false
    else if Contains(t, phrases[0]) then true
    else
      var b := ContainsAny(t, phrases[1..]);
      assert forall k :: 1 <= k < |phrases| ==> phrases[k] == phrases[1..][k - 1];
      b
  }

  /** `is_question`: the early-return checks of the stripped text, in the script's order. */
  function IsQuestion(text: string): bool {
    var t := Strip(text);
    if Contains(t, "?") then true
    else if EndsWithAny(t, QuestionEndings) then true
    else ContainsAny(t, QuestionIntentPhrases)
  }

  /**
   * A message is a question exactly when its stripped text has a `?`, ends with
   * one of the question endings, or contains one of the intent phrases.
   */
  lemma IsQuestionIff(text: string)
    ensures IsQuestion(text) <==>
      || '?' in Strip(text)
      || (exists k :: 0 <= k < |QuestionEndings| && EndsWith(Strip(text), QuestionEndings[k]))
      || (exists k :: 0 <= k < |QuestionIntentPhrases| && Contains(Strip(text), QuestionIntentPhrases[k]))
  {
    ContainsChar(Strip(text), '?');
  }

  /** Surrounding whitespace never changes the classification as a question. */
  lemma QuestionIgnoresPadding(text: string)
    ensures IsQuestion(Strip(text)) == IsQuestion(text)
  {
    StripIdempotent(text);
  }

  /** `is_answer_like`: long enough once stripped, and not a question. */
  function IsAnswerLike(text: string): bool {
    var t := Strip(text);
    if |t| < MinAnswerLength then false
    else if IsQuestion(t) then false
    else true
  }

  /**
   * A message is answer-like exactly when its stripped text has at least five
   * characters and the message is not a question.
   */
  lemma IsAnswerLikeIff(text: string)
    ensures IsAnswerLike(text) <==> |Strip(text)| >= MinAnswerLength && !IsQuestion(text)
  {
    QuestionIgnoresPadding(text);
  }

  /** The two classifications never overlap. */
  lemma NeverBoth(text: string)
    ensures !(IsQuestion(text) && IsAnswerLike(text))
  {
    IsAnswerLikeIff(text);
  }
}
