/** `search_ddg`: the provider's result records reduced to the list of result URLs. */
module Search {
  import opened Wrappers
  import opened Indices

  /** One result record, a dictionary from field name to value; `None` stands
      for a null record in the provider's list. */
  type Record = map<string, string>

  /** What the provider call produced: an exception, or its list of records. */
  datatype SearchOutcome = ProviderError | Results(records: seq<Option<Record>>)

  /** `result and 'href' in result`: the record is present, non-empty and has an `href`. */
  predicate Usable(r: Option<Record>)
  {
    r.Some? && "href" in r.value
  }

  /** The comprehension `[result['href'] for result in search_results if ...]`. */
  function Hrefs(records: seq<Option<Record>>): (urls: seq<string>)
    ensures |urls| <= |records|
  {
    if |records| == 0 then []
    else
      var last := records[|records| - 1];
      Hrefs(records[..|records| - 1]) + (if Usable(last) then [last.value["href"]] else [])
  }

  /** `search_ddg`: the hrefs of the results, or no URL at all when the provider fails. */
  function SearchDdg(outcome: SearchOutcome): (urls: seq<string>)
    ensures outcome.ProviderError? ==> urls == []
    ensures outcome.Results? ==> |urls| <= |outcome.records|
  {
    match outcome
    case ProviderError => []
    case Results(records) =>
      HrefsAreUsableInOrder(records);
      Hrefs(records)
  }

  /** The URLs are exactly the `href` values of the usable records, in their
      original order: the j-th URL comes from the j-th usable record. */
  lemma {:induction false} HrefsAreUsableInOrder(records: seq<Option<Record>>)
    ensures |Hrefs(records)| == |Where(records, Usable)|
    ensures forall j :: 0 <= j < |Hrefs(records)| ==>
      var i := Where(records, Usable)[j]; Usable(records[i]) && Hrefs(records)[j] == records[i].value["href"]
  {
    if |records| > 0 {
      var n := |records| - 1;
      var init := records[..n];
      HrefsAreUsableInOrder(init);
      assert Hrefs(records) == Hrefs(init) + (if Usable(records[n]) then [records[n].value["href"]] else []);
      assert Where(records, Usable) == Where(init, Usable) + (if Usable(records[n]) then [n] else []);
      assert forall j :: 0 <= j < |Where(init, Usable)| ==> records[Where(init, Usable)[j]] == init[Where(init, Usable)[j]];
    }
  }

  /** A provider returning no usable record (all null, empty or without `href`) yields no URL. */
  lemma {:induction false} NoUsableRecordNoUrl(records: seq<Option<Record>>)
    requires forall i :: 0 <= i < |records| ==> !Usable(records[i])
    ensures Hrefs(records) == []
  {
    if |records| > 0 {
      NoUsableRecordNoUrl(records[..|records| - 1]);
    }
  }
}
