/** Chat messages, requests to the chat-completion service, and the four prompt
    templates with Python's `str.format` applied to them. */
module Messages {
  import opened Wrappers

  datatype Role = System | User | Assistant

  datatype Message = Message(role: Role, content: string)

  /** What is sent to the chat-completion service. The model identifier comes
      from the environment and is not part of the model. */
  datatype ChatRequest = ChatRequest(messages: seq<Message>, maxTokens: int, stream: bool)

  /** `prev_messages or []`: an absent (or empty) history is the empty list. */
  function History(prev: Option<seq<Message>>): (h: seq<Message>)
    ensures h == [] <==> prev.None? || prev.value == []
  {
    if prev.Some? then prev.value else []
  }

  const SystemPromptSearch: string :=
    "You are a helpful assistant whose primary goal is to reformulate user query for Google search to get valuable knowledge for further answer."

  /** The text of `search_prompt` before its only placeholder `{query}`. */
  const SearchPromptHead: string :=
    "\nYou should use Google search for most queries to find the most accurate and updated information. Follow these conditions:\n"
    + "- Reformulated user query for Google search.\n"
    + "- User query may sometimes refer to previous messages. Make sure your Google search considers the entire message history.\n"
    + "- Return only the query as answer.\n\nUser Query:\n"

  /** The text of `search_prompt` after `{query}`. */
  const SearchPromptTail: string := "\n"

  const SystemPromptCitedAnswer: string :=
    "You are a helpful assistant who is expert at answering user's queries based on the cited context (search results with /citation number/ /website link/ and brief descriptions)"

  /** The text of `cited_answer_prompt` before `{context_block}`. */
  const CitedPromptHead: string :=
    "\nProvide a relevant, informative response to the user's query using the given context.\n\n"
    + "- Answer directly without referring the user to any external links.\n"
    + "- Use an unbiased, journalistic tone and avoid repeating text.\n"
    + "- Cite all information using [citation number] notation of the website link (dont't write the word citation only the number like [1]), matching each part of your answer to its source from the context block given below.\n\n"
    + "Context Block:\n"

  /** The text of `cited_answer_prompt` between `{context_block}` and `{query}`. */
  const CitedPromptMiddle: string := "\n\nUser Query:\n"

  /** The text of `cited_answer_prompt` after `{query}`. */
  const CitedPromptTail: string := "\n"

  /** `search_prompt.format(query=query)`. Python substitutes the argument
      verbatim: braces inside `query` are not interpreted. */
  function FormatSearchPrompt(query: string): (p: string)
    ensures |p| == |SearchPromptHead| + |query| + |SearchPromptTail|
    ensures p[|SearchPromptHead|..|SearchPromptHead| + |query|] == query
  {
    SearchPromptHead + query + SearchPromptTail
  }

  /** `cited_answer_prompt.format(query=query, context_block=context_block)`. */
  function FormatCitedPrompt(query: string, contextBlock: string): (p: string)
    ensures |p| == |CitedPromptHead| + |contextBlock| + |CitedPromptMiddle| + |query| + |CitedPromptTail|
    ensures p[|CitedPromptHead|..|CitedPromptHead| + |contextBlock|] == contextBlock
    ensures p[|p| - |CitedPromptTail| - |query|..|p| - |CitedPromptTail|] == query
  {
    CitedPromptHead + contextBlock + CitedPromptMiddle + query + CitedPromptTail
  }

  /** Different queries give different search prompts: the prompt determines the query. */
  lemma SearchPromptInjective(q1: string, q2: string)
    requires FormatSearchPrompt(q1) == FormatSearchPrompt(q2)
    ensures q1 == q2
  {
    var p := FormatSearchPrompt(q1);
    assert |q1| == |q2|;
    assert q1 == p[|SearchPromptHead|..|SearchPromptHead| + |q1|];
  }

  /** The cited-answer prompt determines its context block and query once the
      length of the context block is known. */
  lemma CitedPromptInjective(q1: string, c1: string, q2: string, c2: string)
    requires FormatCitedPrompt(q1, c1) == FormatCitedPrompt(q2, c2)
    requires |c1| == |c2|
    ensures q1 == q2 && c1 == c2
  {
    var p := FormatCitedPrompt(q1, c1);
    assert |q1| == |q2|;
    assert c1 == p[|CitedPromptHead|..|CitedPromptHead| + |c1|];
    assert q1 == p[|p| - |CitedPromptTail| - |q1|..|p| - |CitedPromptTail|];
  }
}
