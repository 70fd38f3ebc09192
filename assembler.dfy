/** `get_all_text_from_urls` as the loop the code runs: fetches are awaited
    one after another, so the loop is sequential. The search outcome and the
    fetch response for each URL are given; the method returns the context text
    and the list handed to `print_sources`. */
module ContextAssembler {
  import opened Wrappers
  import opened Search
  import opened Extract
  import opened Context
  import opened ContextLemmas

  method GetAllTextFromUrls(search: SearchOutcome, responses: seq<FetchResponse>)
    returns (text: string, sources: seq<string>)
    requires |responses| == |SearchDdg(search)|
    ensures text == Render(Citations(SearchDdg(search), Outcomes(responses)))
    ensures sources == RemainingSources(SearchDdg(search), Outcomes(responses))
    ensures |sources| == |Citations(SearchDdg(search), Outcomes(responses))|
    ensures multiset(sources) == multiset(SurvivingUrls(SearchDdg(search), Outcomes(responses)))
    ensures Distinct(SearchDdg(search)) ==> sources == SurvivingUrls(SearchDdg(search), Outcomes(responses))
  {
    text := "";
    var urls := SearchDdg(search);
    var urlsC := urls;
    var num := 1;
    ghost var outcomes := Outcomes(responses);
    for i := 0 to |urls|
      invariant num == |Survivors(urls[..i], outcomes[..i])| + 1
      invariant text == Render(Number(Survivors(urls[..i], outcomes[..i])))
      invariant urlsC == RemoveFailed(urls, urls[..i], outcomes[..i])
    {
      var url := urls[i];
      var fetchedText := ExtractText(responses[i]);
      assert fetchedText == outcomes[i];
      LoopStep(urls, outcomes, i);
      RenderStep(urls, outcomes, i);
      if fetchedText.Some? {
        text := text + Interleave(EntryText(Citation(num, url, fetchedText.value)));
        num := num + 1;
      } else {
        // `urls_c.remove(url)` does not raise: the url is still in the copy.
        StillPending(urls, outcomes, i);
        urlsC := RemoveFirst(urlsC, url);
      }
    }
    assert urls[..|urls|] == urls && outcomes[..|urls|] == outcomes;
    sources := urlsC;
    RemainingSourcesAreSurvivors(urls, outcomes);
    if Distinct(urls) {
      DistinctUrlsGiveCitationOrder(urls, outcomes);
    }
  }
}
