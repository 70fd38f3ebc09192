/** `get_all_text_from_urls`: the search's URLs are fetched one after another;
    each success becomes a numbered entry of the context text, each failure is
    removed from the copy of the URL list that is shown as the sources. */
module Context {
  import opened Wrappers
  import opened Indices
  import opened Decimal
  import opened Search
  import opened Extract

  /** A successfully extracted page, with the URL it came from. */
  datatype Page = Page(url: string, text: string)

  /** A page with the citation number the loop gives it. */
  datatype Citation = Citation(number: nat, url: string, text: string)

  predicate Fetched(outcome: Option<string>) { outcome.Some? }

  /** The outcome of `extract_text_from_url` for each response, position by position. */
  function Outcomes(responses: seq<FetchResponse>): (outcomes: seq<Option<string>>)
    ensures |outcomes| == |responses|
    ensures forall i :: 0 <= i < |responses| ==> outcomes[i] == ExtractText(responses[i])
  {
    seq(|responses|, i requires 0 <= i < |responses| => ExtractText(responses[i]))
  }

  /** The pages whose fetch succeeded, in input order. */
  function Survivors(urls: seq<string>, outcomes: seq<Option<string>>): seq<Page>
    requires |urls| == |outcomes|
  {
    if |urls| == 0 then []
    else
      var n := |urls| - 1;
      Survivors(urls[..n], outcomes[..n])
      + (if outcomes[n].Some? then [Page(urls[n], outcomes[n].value)] else [])
  }

  /** Numbers pages 1, 2, ... in order, as the counter `num` does. */
  function Number(pages: seq<Page>): (cs: seq<Citation>)
    ensures |cs| == |pages|
    ensures forall j :: 0 <= j < |cs| ==> cs[j] == Citation(j + 1, pages[j].url, pages[j].text)
  {
    if |pages| == 0 then []
    else
      var last := pages[|pages| - 1];
      Number(pages[..|pages| - 1]) + [Citation(|pages|, last.url, last.text)]
  }

  /** The citations of the context text: the surviving pages, numbered. */
  function Citations(urls: seq<string>, outcomes: seq<Option<string>>): seq<Citation>
    requires |urls| == |outcomes|
  {
    Number(Survivors(urls, outcomes))
  }

  /** The f-string `f"/{num}/. /{url}/ /{fetched_text}/"`. */
  function EntryText(c: Citation): (e: string)
    ensures |e| > 0 && e[0] == '/'
    ensures e[1..] == Show(c.number) + EntryTail(c)
  {
    "/" + (Show(c.number) + EntryTail(c))
  }

  /** The part of an entry after its citation number. */
  function EntryTail(c: Citation): (t: string)
    ensures |t| > 0 && t[0] == '/'
  {
    "/. /" + c.url + "/ /" + c.text + "/"
  }

  /** `"\n".join(s)` applied to a string: a newline between every two characters. */
  function Interleave(s: string): (r: string)
    ensures |s| == 0 ==> r == []
    ensures |s| > 0 ==> |r| == 2 * |s| - 1
  {
    if |s| <= 1 then s else [s[0], '\n'] + Interleave(s[1..])
  }

  /** The entry's characters sit at the even positions of the joined string,
      and the newlines at the odd ones. */
  lemma {:induction false} InterleavePositions(s: string)
    ensures forall k :: 0 <= k < |s| ==> Interleave(s)[2 * k] == s[k]
    ensures forall k :: 0 < k < |s| ==> Interleave(s)[2 * k - 1] == '\n'
  {
    if |s| > 1 {
      var rest := Interleave(s[1..]);
      InterleavePositions(s[1..]);
      assert Interleave(s) == [s[0], '\n'] + rest;
      forall k | 1 <= k < |s|
        ensures Interleave(s)[2 * k] == s[k] && Interleave(s)[2 * k - 1] == '\n'
      {
        assert Interleave(s)[2 * k] == rest[2 * (k - 1)] == s[1..][k - 1];
        if k > 1 {
          assert Interleave(s)[2 * k - 1] == rest[2 * (k - 1) - 1];
        }
      }
    }
  }

  /** The characters at even positions: the inverse of Interleave. */
  function EvenChars(r: string): string
  {
    if |r| <= 1 then r else [r[0]] + EvenChars(r[2..])
  }

  /** The context text: the interleaved entries, concatenated with no separator. */
  function Render(cs: seq<Citation>): (r: string)
    ensures r == "" <==> |cs| == 0
  {
    if |cs| == 0 then ""
    else Render(cs[..|cs| - 1]) + Interleave(EntryText(cs[|cs| - 1]))
  }

  /** The state of `urls_c` once the failures among `done` have been removed
      from `start`, one `list.remove` per failure in loop order. */
  function RemoveFailed(start: seq<string>, done: seq<string>, outcomes: seq<Option<string>>): (r: seq<string>)
    requires |done| == |outcomes|
    ensures |r| <= |start|
  {
    if |done| == 0 then start
    else
      var n := |done| - 1;
      var before := RemoveFailed(start, done[..n], outcomes[..n]);
      if outcomes[n].None? then RemoveFirst(before, done[n]) else before
  }

  /** `list.remove(x)`: deletes the first element equal to x. Python raises
      `ValueError` when x is absent; the loop never does that (see
      StillPending), and this function then leaves s unchanged. */
  function RemoveFirst(s: seq<string>, x: string): (r: seq<string>)
    ensures x in s ==> |r| == |s| - 1
    ensures x !in s ==> r == s
  {
    if |s| == 0 then s
    else if s[0] == x then s[1..]
    else [s[0]] + RemoveFirst(s[1..], x)
  }

  /** Removing a present element drops exactly one copy of it. */
  lemma {:induction false} RemoveFirstDropsOne(s: seq<string>, x: string)
    requires x in s
    ensures multiset(RemoveFirst(s, x)) == multiset(s) - multiset{x}
  {
    assert s == [s[0]] + s[1..];
    if s[0] != x {
      RemoveFirstDropsOne(s[1..], x);
    }
  }

  /** The list `print_sources` receives, as the code computes it. */
  function RemainingSources(urls: seq<string>, outcomes: seq<Option<string>>): seq<string>
    requires |urls| == |outcomes|
  {
    RemoveFailed(urls, urls, outcomes)
  }

  /** The URLs whose fetch succeeded, in input order. */
  function SurvivingUrls(urls: seq<string>, outcomes: seq<Option<string>>): seq<string>
    requires |urls| == |outcomes|
  {
    if |urls| == 0 then []
    else
      var n := |urls| - 1;
      SurvivingUrls(urls[..n], outcomes[..n]) + (if outcomes[n].Some? then [urls[n]] else [])
  }

  predicate Distinct(s: seq<string>)
  {
    forall i, j :: 0 <= i < j < |s| ==> s[i] != s[j]
  }

  /** At iteration i the url being visited is still in `urls_c`. */
  lemma StillPending(urls: seq<string>, outcomes: seq<Option<string>>, i: nat)
    requires |urls| == |outcomes| && i < |urls|
    ensures urls[i] in RemoveFailed(urls, urls[..i], outcomes[..i])
  {
    assert urls == urls[..i] + urls[i..];
    RemovalsKeepPending(urls[..i], outcomes[..i], urls[i..]);
    assert urls[i..] == [urls[i]] + urls[i + 1..];
    assert urls[i] in multiset(RemoveFailed(urls, urls[..i], outcomes[..i]));
  }

  /** One iteration of the loop, stated on the specification functions. */
  lemma LoopStep(urls: seq<string>, outcomes: seq<Option<string>>, i: nat)
    requires |urls| == |outcomes| && i < |urls|
    ensures Survivors(urls[..i + 1], outcomes[..i + 1])
         == Survivors(urls[..i], outcomes[..i]) + (if outcomes[i].Some? then [Page(urls[i], outcomes[i].value)] else [])
    ensures SurvivingUrls(urls[..i + 1], outcomes[..i + 1])
         == SurvivingUrls(urls[..i], outcomes[..i]) + (if outcomes[i].Some? then [urls[i]] else [])
    ensures RemoveFailed(urls, urls[..i + 1], outcomes[..i + 1])
         == (var before := RemoveFailed(urls, urls[..i], outcomes[..i]);
             if outcomes[i].None? then RemoveFirst(before, urls[i]) else before)
  {
    assert urls[..i + 1][..i] == urls[..i] && outcomes[..i + 1][..i] == outcomes[..i];
  }

  /** One iteration of the loop, stated on the context text. */
  lemma RenderStep(urls: seq<string>, outcomes: seq<Option<string>>, i: nat)
    requires |urls| == |outcomes| && i < |urls|
    ensures outcomes[i].None? ==>
      Render(Number(Survivors(urls[..i + 1], outcomes[..i + 1]))) == Render(Number(Survivors(urls[..i], outcomes[..i])))
    ensures outcomes[i].Some? ==>
      var pages := Survivors(urls[..i], outcomes[..i]);
      Render(Number(Survivors(urls[..i + 1], outcomes[..i + 1])))
      == Render(Number(pages)) + Interleave(EntryText(Citation(|pages| + 1, urls[i], outcomes[i].value)))
  {
    LoopStep(urls, outcomes, i);
    var pages := Survivors(urls[..i], outcomes[..i]);
    if outcomes[i].Some? {
      RenderNumberSnoc(pages, Page(urls[i], outcomes[i].value));
    } else {
      assert Survivors(urls[..i + 1], outcomes[..i + 1]) == pages + [] == pages;
    }
  }

  lemma RenderNumberSnoc(pages: seq<Page>, p: Page)
    ensures Render(Number(pages + [p]))
         == Render(Number(pages)) + Interleave(EntryText(Citation(|pages| + 1, p.url, p.text)))
  {
    assert (pages + [p])[..|pages|] == pages;
    var cs := Number(pages + [p]);
    assert cs[..|cs| - 1] == Number(pages);
  }

  /** While the loop runs, `urls_c` holds exactly the surviving URLs visited so
      far together with the URLs not yet visited, as a multiset. */
  lemma {:induction false} RemovalsKeepPending(done: seq<string>, outcomes: seq<Option<string>>, rest: seq<string>)
    requires |done| == |outcomes|
    ensures multiset(RemoveFailed(done + rest, done, outcomes))
         == multiset(SurvivingUrls(done, outcomes)) + multiset(rest)
  {
    if |done| > 0 {
      var n := |done| - 1;
      var x := done[n];
      assert done + rest == done[..n] + ([x] + rest);
      RemovalsKeepPending(done[..n], outcomes[..n], [x] + rest);
      var before := RemoveFailed(done + rest, done[..n], outcomes[..n]);
      var kept := SurvivingUrls(done[..n], outcomes[..n]);
      assert multiset(before) == multiset(kept) + multiset{x} + multiset(rest);
      if outcomes[n].None? {
        assert x in multiset(before);
        RemoveFirstDropsOne(before, x);
      } else {
        assert multiset(kept + [x]) == multiset(kept) + multiset{x};
      }
    }
  }
}
