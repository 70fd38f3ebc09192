/** `get_cited_answer`: the streamed cited-answer request, the accumulation of
    the streamed deltas, and the history it returns. The service is a
    parameter: `stream` maps a request to its sequence of delta contents, in
    arrival order, `None` standing for a chunk whose content is null. */
module CitedAnswer {
  import opened Wrappers
  import opened Indices
  import opened Messages

  /** The streamed request: cited-answer system prompt, the history, then the
      formatted prompt carrying the context block and the query. */
  function CitedAnswerRequest(query: string, contextBlock: string, prev: Option<seq<Message>>, maxTokens: int): (r: ChatRequest)
    ensures |r.messages| == |History(prev)| + 2
    ensures r.messages[0] == Message(System, SystemPromptCitedAnswer)
    ensures r.messages[1..|r.messages| - 1] == History(prev)
    ensures r.messages[|r.messages| - 1] == Message(User, FormatCitedPrompt(query, contextBlock))
    ensures r.maxTokens == maxTokens && r.stream
  {
    var newMessages := History(prev) + [Message(User, FormatCitedPrompt(query, contextBlock))];
    ChatRequest([Message(System, SystemPromptCitedAnswer)] + newMessages, maxTokens, true)
  }

  predicate NonNull(delta: Option<string>) { delta.Some? }

  /** What `full_answer +=` adds for one delta: its content, or "" when null. */
  function DeltaText(delta: Option<string>): string
  {
    if delta.Some? then delta.value else ""
  }

  /** `full_answer` after the deltas have been consumed in order. */
  function JoinDeltas(deltas: seq<Option<string>>): (r: string)
    ensures (forall i :: 0 <= i < |deltas| ==> deltas[i].None?) ==> r == ""
  {
    if |deltas| == 0 then ""
    else JoinDeltas(deltas[..|deltas| - 1]) + DeltaText(deltas[|deltas| - 1])
  }

  /** The history returned: the caller's history with the answer appended as
      one assistant message; the user's query is not appended. */
  function AnswerHistory(prev: seq<Message>, answer: string): (h: seq<Message>)
    ensures |h| == |prev| + 1
    ensures h[..|prev|] == prev
    ensures h[|prev|] == Message(Assistant, answer)
  {
    prev + [Message(Assistant, answer)]
  }

  method GetCitedAnswer(query: string, contextBlock: string, prev: Option<seq<Message>>, maxTokens: int,
                        stream: ChatRequest -> seq<Option<string>>)
    returns (newPrevMessages: seq<Message>)
    ensures var deltas := stream(CitedAnswerRequest(query, contextBlock, prev, maxTokens));
      newPrevMessages == AnswerHistory(History(prev), JoinDeltas(deltas))
  {
    var prevMessages := History(prev);
    var request := CitedAnswerRequest(query, contextBlock, prev, maxTokens);
    var deltas := stream(request);
    var fullAnswer := "";
    for i := 0 to |deltas|
      invariant fullAnswer == JoinDeltas(deltas[..i])
    {
      assert deltas[..i + 1][..i] == deltas[..i];
      fullAnswer := fullAnswer + DeltaText(deltas[i]);
    }
    assert deltas[..|deltas|] == deltas;
    newPrevMessages := prevMessages + [Message(Assistant, fullAnswer)];
  }

  /** Concatenation of a list of strings. */
  function Flatten(chunks: seq<string>): string
  {
    if |chunks| == 0 then "" else chunks[0] + Flatten(chunks[1..])
  }

  /** The contents of the non-null deltas, in arrival order. */
  function Present(deltas: seq<Option<string>>): (texts: seq<string>)
    ensures |texts| <= |deltas|
  {
    if |deltas| == 0 then []
    else (if deltas[0].Some? then [deltas[0].value] else []) + Present(deltas[1..])
  }

  /** The kept contents are those of the non-null deltas, in arrival order:
      entry j is the content of the j-th non-null delta. */
  lemma {:induction false} PresentIsWhere(deltas: seq<Option<string>>)
    ensures |Present(deltas)| == |Where(deltas, NonNull)|
    ensures forall j :: 0 <= j < |Present(deltas)| ==>
      var i := Where(deltas, NonNull)[j]; deltas[i].Some? && Present(deltas)[j] == deltas[i].value
  {
    if |deltas| > 0 {
      var n := |deltas| - 1;
      var init := deltas[..n];
      PresentIsWhere(init);
      assert deltas == init + [deltas[n]];
      PresentAppend(init, [deltas[n]]);
      assert [deltas[n]][1..] == [];
      assert Present(deltas) == Present(init) + (if deltas[n].Some? then [deltas[n].value] else []);
      assert Where(deltas, NonNull) == Where(init, NonNull) + (if NonNull(deltas[n]) then [n] else []);
      assert forall j :: 0 <= j < |Where(init, NonNull)| ==> deltas[Where(init, NonNull)[j]] == init[Where(init, NonNull)[j]];
    }
  }

  lemma {:induction false} FlattenAppend(a: seq<string>, b: seq<string>)
    ensures Flatten(a + b) == Flatten(a) + Flatten(b)
  {
    if |a| > 0 {
      assert (a + b)[1..] == a[1..] + b;
      FlattenAppend(a[1..], b);
    } else {
      assert a + b == b;
    }
  }

  lemma {:induction false} PresentAppend(a: seq<Option<string>>, b: seq<Option<string>>)
    ensures Present(a + b) == Present(a) + Present(b)
  {
    if |a| > 0 {
      assert (a + b)[1..] == a[1..] + b;
      PresentAppend(a[1..], b);
    } else {
      assert a + b == b;
    }
  }

  /** Streaming reconstruction: the full answer is the in-order concatenation
      of the non-null deltas; null deltas contribute nothing. */
  lemma {:induction false} JoinDeltasIsConcatOfPresent(deltas: seq<Option<string>>)
    ensures JoinDeltas(deltas) == Flatten(Present(deltas))
  {
    if |deltas| > 0 {
      var n := |deltas| - 1;
      JoinDeltasIsConcatOfPresent(deltas[..n]);
      assert deltas == deltas[..n] + [deltas[n]];
      PresentAppend(deltas[..n], [deltas[n]]);
      assert [deltas[n]][1..] == [];
      FlattenAppend(Present(deltas[..n]), Present([deltas[n]]));
      assert Flatten(Present([deltas[n]])) == DeltaText(deltas[n]);
    }
  }

  /** Accumulating a stream in two parts gives the same text as accumulating it at once. */
  lemma {:induction false} JoinDeltasAppend(a: seq<Option<string>>, b: seq<Option<string>>)
    ensures JoinDeltas(a + b) == JoinDeltas(a) + JoinDeltas(b)
  {
    if |b| == 0 {
      assert a + b == a;
    } else {
      var n := |b| - 1;
      assert (a + b)[..|a + b| - 1] == a + b[..n];
      assert (a + b)[|a + b| - 1] == b[n];
      assert JoinDeltas(a + b) == JoinDeltas(a + b[..n]) + DeltaText(b[n]);
      JoinDeltasAppend(a, b[..n]);
      assert JoinDeltas(b) == JoinDeltas(b[..n]) + DeltaText(b[n]);
    }
  }

  /** The returned history extends the caller's: one message longer, the old
      messages untouched, the answer last. */
  lemma GetCitedAnswerAppendsOnly(prev: Option<seq<Message>>, deltas: seq<Option<string>>)
    ensures var h := AnswerHistory(History(prev), JoinDeltas(deltas));
      |h| == |History(prev)| + 1 && h[..|History(prev)|] == History(prev)
      && h[|h| - 1] == Message(Assistant, Flatten(Present(deltas)))
  {
    JoinDeltasIsConcatOfPresent(deltas);
  }
}
