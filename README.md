# TerminalPlex retrieval and citation core, modelled in Dafny

TerminalPlex answers questions in a terminal. For each prompt it:

- asks a chat-completion service to rewrite the prompt, together with the conversation so far, as a search query;
- searches DuckDuckGo for up to four results;
- downloads each result page and keeps its first 10000 characters of text;
- joins the pages into a numbered context block;
- streams an answer that cites the pages by number, and threads the conversation history into the next turn.

This project models the deterministic part of that loop, all in `terminalplex.py`. The search provider, the HTTP fetches, the HTML parser and the chat service are not modelled as code. Their outputs are inputs to the model:

- the search outcome is a value `SearchOutcome`;
- each fetch outcome is a `FetchResponse`;
- the chat service is a function from a `ChatRequest` to its reply. For the streamed answer, that reply is the sequence of deltas.

Modules, one per component of the script:

- `Search`: `search_ddg`'s filter over result records.
- `Extract`: `extract_text_from_url`'s reduction of a fetch to bounded text or `None`.
- `Context`: the specification functions of `get_all_text_from_urls`, as follows.
  - A surviving page is a fetch that succeeded.
  - Survivors are numbered 1..k.
  - Each entry is the f-string `/{num}/. /{url}/ /{text}/`, with `"\n".join` applied to it as a string, so a newline goes between every two characters.
  - The context text is the entries concatenated.
  - The sources list is `urls_c` after the `list.remove` calls.
- `ContextLemmas`: properties of those functions.
- `ContextAssembler`: the loop itself, as a method.
- `Decimal`: `str` of the counter `num` inside the f-string.
- `Messages`: roles, messages, requests, the four prompt constants, and `str.format` applied to the two templates.
- `Reformulate`: `get_search_query`.
- `CitedAnswer`: `get_cited_answer`, including the loop that accumulates the streamed deltas.
- `Session`: how `main` threads the history from turn to turn.
- `Wrappers`, `Indices`: `Option`, and the increasing positions of the elements that satisfy a predicate. `Indices` is the reference that every order-preserving filter is stated against.

Where the intended design and the code differ, the model follows the code:

- The fetches are awaited one after another, so there is no concurrency.
- An `href` that is an empty string is kept.
- `raise_for_status` treats only statuses 400..599 as failures.
- The history gains one assistant message per turn, not a user message and an answer.

## Model

| member | source | states |
|---|---|---|
| Search.SearchDdg | terminalplex.py:41-49 | a provider exception yields no URL; otherwise there are at most as many URLs as result records |
| Search.Hrefs | terminalplex.py:45 | the `href` comprehension yields at most one URL per result record |
| Search.HrefsAreUsableInOrder | terminalplex.py:45 | the URLs are exactly the `href` values of the records that are present and have an `href`, in their original order: URL j comes from the j-th such record, and every such record gives one |
| Search.NoUsableRecordNoUrl | terminalplex.py:45 | when no record is present with an `href`, there is no URL |
| Extract.Truncate | terminalplex.py:67 | the slice is a prefix of the text, of length min(length, 10000) |
| Extract.RaisesForStatus | terminalplex.py:62 | `raise_for_status` never fires on a 2xx or 3xx status |
| Extract.ExtractText | terminalplex.py:58-67 | the result is `None` exactly for a transport error or a 4xx/5xx status; otherwise it is a prefix of the page text, at most 10000 characters long, the whole text when that fits and exactly 10000 characters when it does not |
| Decimal.Show | terminalplex.py:77 | the rendering of `num` is a non-empty string of digits with no leading zero |
| Decimal.ValueOfShow | terminalplex.py:77 | the decimal rendering of a number reads back as that number |
| Messages.FormatSearchPrompt | terminalplex.py:13-21 | `search_prompt.format(query=...)` holds the query verbatim after the fixed head, and has the length of head, query and tail together |
| Messages.FormatCitedPrompt | terminalplex.py:24-36 | `cited_answer_prompt.format(...)` holds the context block after the fixed head and the query just before the tail |
| Messages.SearchPromptInjective | terminalplex.py:86 | different queries give different search prompts |
| Messages.CitedPromptInjective | terminalplex.py:99 | the cited prompt determines its query and its context block, given the block's length |
| Messages.History | terminalplex.py:87 | `prev_messages or []`, also at line 100: the history is empty exactly when the caller passes `None` or an empty list |
| Context.Outcomes | terminalplex.py:75 | the outcome at each position is `extract_text_from_url` applied to that position's response |
| Context.Number | terminalplex.py:73-78 | the counter gives the j-th surviving page the number j + 1 and keeps its URL and text |
| Context.EntryText | terminalplex.py:77 | every entry begins with `/` and is followed by the decimal citation number, then the rest of the entry |
| Context.Render | terminalplex.py:77 | the context text is empty exactly when there is no citation |
| Context.Interleave | terminalplex.py:77 | `"\n".join` on an entry of length n > 0 has length 2n - 1, and on the empty string gives the empty string |
| Context.InterleavePositions | terminalplex.py:77 | the entry's characters sit at the even positions of the joined string, and newlines at the odd positions |
| Context.RemoveFirst | terminalplex.py:80 | `list.remove` of a present element makes the list one shorter; an absent element is never removed (the loop never asks for one) |
| Context.RemoveFirstDropsOne | terminalplex.py:80 | `list.remove` of a present element drops exactly one copy of it and keeps every other element |
| Context.RemoveFailed | terminalplex.py:72-80 | the removals never make `urls_c` longer than the list it was copied from |
| Context.StillPending | terminalplex.py:72-80 | when the loop reaches a failed URL, that URL is still in `urls_c`, so `remove` does not raise |
| Context.LoopStep | terminalplex.py:74-80 | one iteration extends the survivors and the surviving URLs by the current page exactly when its fetch succeeded, and removes the current URL from `urls_c` exactly when the fetch failed |
| Context.RenderStep | terminalplex.py:76-78 | one iteration appends to the context text the interleaved entry of the next citation number when the fetch succeeded, and nothing when it failed |
| Context.RenderNumberSnoc | terminalplex.py:77-78 | appending a page appends its entry, numbered one past the pages before it |
| Context.RemovalsKeepPending | terminalplex.py:72-80 | during the loop, `urls_c` holds, as a multiset, the surviving URLs so far plus the URLs not yet visited |
| ContextAssembler.GetAllTextFromUrls | terminalplex.py:69-83 | the context text is the rendering of the numbered survivors. The list handed to `print_sources` is `urls_c` after the removals. That list has one entry per citation, is a permutation of the surviving URLs, and equals them in order when the URLs are distinct |
| ContextLemmas.SurvivorsInInputOrder | terminalplex.py:74-78 | the surviving pages are the successful fetches in input order, paired with their own URLs |
| ContextLemmas.CitationsNumberedInInputOrder | terminalplex.py:73-78 | the citations are numbered exactly 1..k, k being the number of successful fetches, and citation j + 1 is the j-th success in input order with its own URL and text |
| ContextLemmas.SurvivingUrlsInInputOrder | terminalplex.py:72-81 | the surviving URLs are the input URLs with the failed ones filtered out, order kept |
| ContextLemmas.SurvivingUrlsMatchCitations | terminalplex.py:51-55 | listing the surviving URLs in order numbers each one as its citation: position j holds the URL of citation j + 1 |
| ContextLemmas.RemainingSourcesAreSurvivors | terminalplex.py:72-81 | whatever the URLs, the sources list is a permutation of the surviving URLs and has k entries |
| ContextLemmas.RemoveFirstPast | terminalplex.py:80 | `remove` skips a prefix that does not contain the element |
| ContextLemmas.SurvivingUrlsAmong | terminalplex.py:72-81 | every surviving URL is one of the input URLs |
| ContextLemmas.RemovalsInOrder | terminalplex.py:72-81 | with distinct URLs, `urls_c` during the loop is the surviving URLs so far followed by the URLs not yet visited |
| ContextLemmas.DistinctUrlsGiveCitationOrder | terminalplex.py:72-81 | with distinct URLs, the sources list is exactly the surviving URLs in input order |
| ContextLemmas.NothingFetchedNothingCited | terminalplex.py:70-83 | with no URL, or only failed fetches, there is no citation, the context text is empty and the sources list is empty |
| ContextLemmas.RenderAppend | terminalplex.py:77 | the context text of two runs of citations is their texts concatenated, with no separator |
| ContextLemmas.EvenCharsInterleave | terminalplex.py:77 | taking every other character undoes the `"\n".join` |
| ContextLemmas.CitationNumberReadBack | terminalplex.py:77 | in each entry, with the inserted newlines taken out, the digits after the first `/` read back as the entry's citation number |
| ContextLemmas.ThirdOfFourFails | terminalplex.py:73-80 | four URLs whose third fetch fails give citations 1, 2, 3 for URLs 0, 1, 3 |
| ContextLemmas.RepeatedUrlShiftsSources | terminalplex.py:72-81 | with URLs [a, b, a] and the last fetch failing, citations 1 and 2 are a and b, but the sources list is [b, a] |
| Reformulate.SearchRequest | terminalplex.py:85-93 | the request is the search system prompt, then the caller's history (`None` meaning empty) unchanged, then the formatted prompt as a user message; max 50 tokens, not streamed |
| Reformulate.SearchRequestDeterminesInputs | terminalplex.py:86-91 | the request sent determines the user's query and the whole prior history |
| CitedAnswer.CitedAnswerRequest | terminalplex.py:99-108 | the streamed request is the cited-answer system prompt, the caller's history unchanged, then the prompt formatted with the query and context block as a user message |
| CitedAnswer.AnswerHistory | terminalplex.py:119-120 | the returned history is the caller's, left untouched, plus one assistant message with the answer, so it is one message longer |
| CitedAnswer.GetCitedAnswer | terminalplex.py:98-120 | after the stream, `full_answer` is the accumulation of the deltas of the request built from the inputs, and the result is the caller's history plus that answer as an assistant message |
| CitedAnswer.JoinDeltas | terminalplex.py:113-114 | a stream whose deltas are all null leaves `full_answer` empty |
| CitedAnswer.Present | terminalplex.py:113-114 | there are no more non-null delta contents than deltas |
| CitedAnswer.PresentIsWhere | terminalplex.py:113-114 | the kept contents are exactly those of the non-null deltas, in arrival order: entry j is the content of the j-th non-null delta |
| CitedAnswer.FlattenAppend | terminalplex.py:114 | concatenating two lists of chunks concatenates their texts |
| CitedAnswer.PresentAppend | terminalplex.py:114 | the non-null deltas of two parts of a stream are those of each part, in order |
| CitedAnswer.JoinDeltasIsConcatOfPresent | terminalplex.py:113-114 | `full_answer` is the in-order concatenation of the non-null deltas; null deltas add nothing |
| CitedAnswer.JoinDeltasAppend | terminalplex.py:113-114 | accumulating a stream in two parts gives the text of accumulating it at once |
| CitedAnswer.GetCitedAnswerAppendsOnly | terminalplex.py:113-120 | the returned history keeps the old messages as its prefix and ends with the concatenated non-null deltas as an assistant message |
| Session.HistoryHoldsOnlyAnswers | terminalplex.py:130-140 | starting from `None`, n turns leave exactly the n answers as assistant messages, with no user message |
| Session.HistoryAfterTurns | terminalplex.py:130-140 | with the code as written, each turn adds exactly one message, so n turns leave n messages |
| Session.SearchRequestLacksEarlierQuestions | terminalplex.py:86-91 | the next reformulation request carries no user message except the current prompt |
| Session.SecondTurnForgetsFirstQuestion | terminalplex.py:137-140 | the second turn's reformulation request is the system prompt, the first answer and the second prompt |
| Session.IntendedAnswerHistory | terminalplex.py:100-101 | appending a turn the intended way adds the user's query and then the answer, keeping the old history as prefix |
| Session.IntendedHistoryInterleaves | terminalplex.py:137-140 | with the intended update, n turns leave 2n messages: user, assistant, interleaved, in turn order |
| Session.SecondTurnRemembersFirstQuestion | terminalplex.py:137-140 | with the intended update, the second request carries the first question, the first answer and the second prompt in that order |

## Findings

| source | as written | input that shows it | evidently intended | confidence | as-written member | corrected member |
|---|---|---|---|---|---|---|
| terminalplex.py:72-81 | `urls_c.remove(url)` deletes the first equal URL, so with a repeated URL the list given to `print_sources` leaves citation order | search URLs [a, b, a] whose fetches succeed, succeed, fail: the context numbers a as 1 and b as 2, while `print_sources` prints 1. b, 2. a | the printed source j + 1 is the URL of citation j + 1 (`Context.SurvivingUrls`) | low; not executed (repeated result URLs are rare) | ContextLemmas.RepeatedUrlShiftsSources | ContextLemmas.SurvivingUrlsMatchCitations |
| terminalplex.py:100-101, 119-120 | `get_cited_answer` builds `new_messages` with the user's message but returns `prev_messages` plus the answer only, so the history never holds a user message | two turns, questions Q1, Q2, first answer R1: the second reformulation request is [system, assistant R1, user prompt(Q2)], without Q1, although the search prompt asks the service to consider the whole history | each turn appends the user's query and then the answer (`Session.IntendedAnswerHistory`) | medium; not executed | Session.SecondTurnForgetsFirstQuestion | Session.IntendedHistoryInterleaves |

`ContextAssembler.GetAllTextFromUrls` and `CitedAnswer.GetCitedAnswer` model the code as written. The corrected definitions stand beside them, with their properties proved.

## Left out

- HTTP with `requests.get` and its `User-Agent` header: network I/O. Each URL's outcome is a given `FetchResponse`: a transport error, or a status with the page text.
- `BeautifulSoup(...).get_text()`: a foreign HTML parser. The page text is an opaque string. Its exceptions are not caught by the code, so they are not modelled either.
- DuckDuckGo's `DDGS().text(query, max_results=4)`: an external service. Its outcome is a given `SearchOutcome`. The model does not bound the number of records by 4, because only the provider does that.
- Result values other than strings, and records that are not dictionaries: `Record` is a map from strings to strings.
- The OpenAI client and its streaming iterator: an external service. Replies are given functions of the request. The model name, the API key and the base URL are environment configuration and are not modelled.
- `int(os.getenv("MAX_TOKENS"))`: configuration, given as the integer `maxTokens`. Its `ValueError` is not modelled.
- `response.choices[0]`: an empty `choices` list, which would raise `IndexError`, is outside the service contract and is not modelled.
- `asyncio` and `run_in_executor`: scheduling plumbing. The fetches are awaited in sequence.
- `load_dotenv`, `input`, the exit words and the `main` loop's I/O. Only the threading of `prev_messages` across turns is modelled, in `Session`.
- `rich.print`, the echo of each delta, and what `print_sources` prints. The model keeps the list handed to `print_sources`.
- Characters: Python slices strings by code point. Dafny's `char` is taken to stand for one such character, and no encoding is modelled.
- ContextAssembler.GetAllTextFromUrls: the final value of `num`, one more than the number of citations, is kept as a loop invariant and not returned, because the code does not return it.
- Reformulate.GetSearchQuery: its result is the service's reply to `SearchRequest`. Its properties are stated on `SearchRequest`.
