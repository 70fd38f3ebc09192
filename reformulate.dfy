/** `get_search_query`: the request that asks the chat-completion service to
    rewrite the user's prompt as a search query. The service is a parameter:
    `complete` maps a request to the content of its first choice. */
module Reformulate {
  import opened Wrappers
  import opened Messages

  /** The `max_tokens` of the search-query request. */
  const SearchQueryMaxTokens := 50

  /** The single request `get_search_query` sends: the search system prompt,
      then the caller's history unchanged, then the formatted prompt as a user
      message; it is not streamed. */
  function SearchRequest(query: string, prev: Option<seq<Message>>): (r: ChatRequest)
    ensures |r.messages| == |History(prev)| + 2
    ensures r.messages[0] == Message(System, SystemPromptSearch)
    ensures r.messages[1..|r.messages| - 1] == History(prev)
    ensures r.messages[|r.messages| - 1] == Message(User, FormatSearchPrompt(query))
    ensures r.maxTokens == SearchQueryMaxTokens && !r.stream
  {
    var newMessages := History(prev) + [Message(User, FormatSearchPrompt(query))];
    ChatRequest([Message(System, SystemPromptSearch)] + newMessages, SearchQueryMaxTokens, false)
  }

  /** The search query is the service's answer to exactly that request; no
      history is returned. */
  function GetSearchQuery(query: string, prev: Option<seq<Message>>, complete: ChatRequest -> string): string
  {
    complete(SearchRequest(query, prev))
  }

  /** The request determines both the user's prompt and the whole prior
      history: two calls send the same request only when they agree on both. */
  lemma SearchRequestDeterminesInputs(q1: string, p1: Option<seq<Message>>, q2: string, p2: Option<seq<Message>>)
    requires SearchRequest(q1, p1) == SearchRequest(q2, p2)
    ensures q1 == q2 && History(p1) == History(p2)
  {
    var m := SearchRequest(q1, p1).messages;
    assert History(p1) == m[1..|m| - 1] == History(p2);
    SearchPromptInjective(q1, q2);
  }
}
