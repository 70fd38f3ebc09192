/** Conversation history across turns, as `main` threads `prev_messages`
    through `get_search_query` and `get_cited_answer`: it starts as `None` and
    each turn replaces it by the history `get_cited_answer` returns. */
module Session {
  import opened Wrappers
  import opened Messages
  import opened Reformulate
  import opened CitedAnswer

  /** The history after one turn per answer, as the code builds it. */
  function HistoryAfterTurns(answers: seq<string>): (h: seq<Message>)
    ensures |h| == |answers|
  {
    if |answers| == 0 then []
    else AnswerHistory(HistoryAfterTurns(answers[..|answers| - 1]), answers[|answers| - 1])
  }

  /** As written, the history holds one assistant message per turn and nothing
      else: after n turns it has n messages, none of them from the user. */
  lemma {:induction false} HistoryHoldsOnlyAnswers(answers: seq<string>)
    ensures |HistoryAfterTurns(answers)| == |answers|
    ensures forall i :: 0 <= i < |answers| ==> HistoryAfterTurns(answers)[i] == Message(Assistant, answers[i])
  {
    if |answers| > 0 {
      HistoryHoldsOnlyAnswers(answers[..|answers| - 1]);
    }
  }

  /** Consequently the next search request carries no earlier user question:
      its only user message is the current prompt. */
  lemma {:induction false} SearchRequestLacksEarlierQuestions(answers: seq<string>, query: string)
    ensures var m := SearchRequest(query, Some(HistoryAfterTurns(answers))).messages;
      forall i :: 0 <= i < |m| - 1 ==> m[i].role != User
  {
    HistoryHoldsOnlyAnswers(answers);
    var h := HistoryAfterTurns(answers);
    var m := SearchRequest(query, Some(h)).messages;
    forall i | 0 <= i < |m| - 1 ensures m[i].role != User {
      if i > 0 {
        assert m[i] == m[1..|m| - 1][i - 1] == h[i - 1];
      }
    }
  }

  /** Two turns: the second reformulation request is the system prompt, the
      first answer and the second prompt. The first question, whatever it
      was, is missing, although the prompt asks the service to consider the
      whole history. */
  lemma SecondTurnForgetsFirstQuestion(r1: string, q2: string)
    ensures SearchRequest(q2, Some(HistoryAfterTurns([r1]))).messages
         == [Message(System, SystemPromptSearch), Message(Assistant, r1), Message(User, FormatSearchPrompt(q2))]
  {
    HistoryHoldsOnlyAnswers([r1]);
  }

  /** The history a turn is evidently meant to leave: the user's query and
      the answer, in that order. */
  function IntendedAnswerHistory(prev: seq<Message>, query: string, answer: string): (h: seq<Message>)
    ensures |h| == |prev| + 2 && h[..|prev|] == prev
    ensures h[|prev|] == Message(User, query) && h[|prev| + 1] == Message(Assistant, answer)
  {
    prev + [Message(User, query), Message(Assistant, answer)]
  }

  function IntendedHistoryAfterTurns(queries: seq<string>, answers: seq<string>): seq<Message>
    requires |queries| == |answers|
  {
    if |answers| == 0 then []
    else
      var n := |answers| - 1;
      IntendedAnswerHistory(IntendedHistoryAfterTurns(queries[..n], answers[..n]), queries[n], answers[n])
  }

  /** With the intended update, n turns leave 2n messages: user and assistant
      interleaved, in turn order. */
  lemma {:induction false} IntendedHistoryInterleaves(queries: seq<string>, answers: seq<string>)
    requires |queries| == |answers|
    ensures |IntendedHistoryAfterTurns(queries, answers)| == 2 * |answers|
    ensures forall i :: 0 <= i < |answers| ==>
      IntendedHistoryAfterTurns(queries, answers)[2 * i] == Message(User, queries[i])
      && IntendedHistoryAfterTurns(queries, answers)[2 * i + 1] == Message(Assistant, answers[i])
  {
    if |answers| > 0 {
      var n := |answers| - 1;
      IntendedHistoryInterleaves(queries[..n], answers[..n]);
      var before := IntendedHistoryAfterTurns(queries[..n], answers[..n]);
      var h := IntendedHistoryAfterTurns(queries, answers);
      forall i | 0 <= i < |answers|
        ensures h[2 * i] == Message(User, queries[i]) && h[2 * i + 1] == Message(Assistant, answers[i])
      {
        if i < n {
          assert h[2 * i] == h[..|before|][2 * i] == before[2 * i];
          assert h[2 * i + 1] == h[..|before|][2 * i + 1] == before[2 * i + 1];
        }
      }
    }
  }

  /** With the intended update, the second reformulation request carries the
      first question, the first answer and the second prompt, in that order. */
  lemma SecondTurnRemembersFirstQuestion(q1: string, r1: string, q2: string)
    ensures var m := SearchRequest(q2, Some(IntendedHistoryAfterTurns([q1], [r1]))).messages;
      m[1..] == [Message(User, q1), Message(Assistant, r1), Message(User, FormatSearchPrompt(q2))]
  {
    IntendedHistoryInterleaves([q1], [r1]);
  }
}
