/** Properties of the context text and the sources list built by the loop. */
module ContextLemmas {
  import opened Wrappers
  import opened Indices
  import opened Decimal
  import opened Context

  /** The surviving pages are the successful fetches, in input order. */
  lemma {:induction false} SurvivorsInInputOrder(urls: seq<string>, outcomes: seq<Option<string>>)
    requires |urls| == |outcomes|
    ensures |Survivors(urls, outcomes)| == |Where(outcomes, Fetched)|
    ensures forall j :: 0 <= j < |Survivors(urls, outcomes)| ==>
      var i := Where(outcomes, Fetched)[j];
      outcomes[i].Some? && Survivors(urls, outcomes)[j] == Page(urls[i], outcomes[i].value)
  {
    if |urls| > 0 {
      var n := |urls| - 1;
      SurvivorsInInputOrder(urls[..n], outcomes[..n]);
      assert outcomes[..n] == outcomes[..|outcomes| - 1];
    }
  }

  /** Citation numbering: the entries are numbered exactly 1..k, where k is the
      number of successful fetches, and the j-th entry carries the URL and text
      of the j-th successful fetch in input order. */
  lemma CitationsNumberedInInputOrder(urls: seq<string>, outcomes: seq<Option<string>>)
    requires |urls| == |outcomes|
    ensures |Citations(urls, outcomes)| == |Where(outcomes, Fetched)|
    ensures forall j :: 0 <= j < |Citations(urls, outcomes)| ==>
      var i := Where(outcomes, Fetched)[j];
      outcomes[i].Some? && Citations(urls, outcomes)[j] == Citation(j + 1, urls[i], outcomes[i].value)
  {
    SurvivorsInInputOrder(urls, outcomes);
  }

  /** The surviving URLs are the input URLs with the failed ones filtered out, order kept. */
  lemma {:induction false} SurvivingUrlsInInputOrder(urls: seq<string>, outcomes: seq<Option<string>>)
    requires |urls| == |outcomes|
    ensures |SurvivingUrls(urls, outcomes)| == |Where(outcomes, Fetched)|
    ensures forall j :: 0 <= j < |SurvivingUrls(urls, outcomes)| ==>
      SurvivingUrls(urls, outcomes)[j] == urls[Where(outcomes, Fetched)[j]]
  {
    if |urls| > 0 {
      var n := |urls| - 1;
      SurvivingUrlsInInputOrder(urls[..n], outcomes[..n]);
      assert outcomes[..n] == outcomes[..|outcomes| - 1];
    }
  }

  /** Position j of the surviving URLs is the URL of citation number j + 1:
      the numbering `print_sources` prints agrees with the context text. */
  lemma SurvivingUrlsMatchCitations(urls: seq<string>, outcomes: seq<Option<string>>)
    requires |urls| == |outcomes|
    ensures |SurvivingUrls(urls, outcomes)| == |Citations(urls, outcomes)|
    ensures forall j :: 0 <= j < |Citations(urls, outcomes)| ==>
      SurvivingUrls(urls, outcomes)[j] == Citations(urls, outcomes)[j].url
      && Citations(urls, outcomes)[j].number == j + 1
  {
    CitationsNumberedInInputOrder(urls, outcomes);
    SurvivingUrlsInInputOrder(urls, outcomes);
  }

  /** Whatever the URLs, the sources list holds the surviving URLs, each as
      often as it survived, and so has one entry per citation. */
  lemma RemainingSourcesAreSurvivors(urls: seq<string>, outcomes: seq<Option<string>>)
    requires |urls| == |outcomes|
    ensures multiset(RemainingSources(urls, outcomes)) == multiset(SurvivingUrls(urls, outcomes))
    ensures |RemainingSources(urls, outcomes)| == |Citations(urls, outcomes)|
  {
    assert urls + [] == urls;
    RemovalsKeepPending(urls, outcomes, []);
    assert |RemainingSources(urls, outcomes)| == |multiset(RemainingSources(urls, outcomes))|;
    SurvivingUrlsMatchCitations(urls, outcomes);
  }

  lemma {:induction false} RemoveFirstPast(a: seq<string>, x: string, rest: seq<string>)
    requires x !in a
    ensures RemoveFirst(a + [x] + rest, x) == a + rest
  {
    var s := a + [x] + rest;
    if |a| == 0 {
      assert s[0] == x && s[1..] == rest;
    } else {
      assert s[0] == a[0] && s[0] != x;
      assert s[1..] == a[1..] + [x] + rest;
      RemoveFirstPast(a[1..], x, rest);
      assert RemoveFirst(s, x) == [a[0]] + RemoveFirst(s[1..], x);
      assert [a[0]] + (a[1..] + rest) == a + rest;
    }
  }

  lemma {:induction false} SurvivingUrlsAmong(done: seq<string>, outcomes: seq<Option<string>>)
    requires |done| == |outcomes|
    ensures forall u :: u in SurvivingUrls(done, outcomes) ==> u in done
  {
    if |done| > 0 {
      var n := |done| - 1;
      SurvivingUrlsAmong(done[..n], outcomes[..n]);
      assert forall u :: u in done[..n] ==> u in done;
    }
  }

  lemma {:induction false} RemovalsInOrder(done: seq<string>, outcomes: seq<Option<string>>, rest: seq<string>)
    requires |done| == |outcomes| && Distinct(done + rest)
    ensures RemoveFailed(done + rest, done, outcomes) == SurvivingUrls(done, outcomes) + rest
  {
    if |done| > 0 {
      var n := |done| - 1;
      var x := done[n];
      var all := done + rest;
      assert all == done[..n] + ([x] + rest);
      RemovalsInOrder(done[..n], outcomes[..n], [x] + rest);
      var kept := SurvivingUrls(done[..n], outcomes[..n]);
      assert x !in kept by {
        SurvivingUrlsAmong(done[..n], outcomes[..n]);
        assert forall i :: 0 <= i < n ==> done[..n][i] == all[i] && all[i] != all[n];
      }
      if outcomes[n].None? {
        RemoveFirstPast(kept, x, rest);
        assert kept + ([x] + rest) == kept + [x] + rest;
      } else {
        assert kept + ([x] + rest) == (kept + [x]) + rest;
      }
    }
  }

  /** When the search returned distinct URLs, the sources list is exactly the
      URLs of the citations, in citation order. */
  lemma DistinctUrlsGiveCitationOrder(urls: seq<string>, outcomes: seq<Option<string>>)
    requires |urls| == |outcomes| && Distinct(urls)
    ensures RemainingSources(urls, outcomes) == SurvivingUrls(urls, outcomes)
  {
    assert urls + [] == urls;
    RemovalsInOrder(urls, outcomes, []);
  }

  /** An empty URL list, or one whose every fetch failed, gives an empty
      context text and an empty sources list. */
  lemma {:induction false} NothingFetchedNothingCited(urls: seq<string>, outcomes: seq<Option<string>>)
    requires |urls| == |outcomes|
    requires forall i :: 0 <= i < |outcomes| ==> outcomes[i].None?
    ensures Citations(urls, outcomes) == []
    ensures Render(Citations(urls, outcomes)) == ""
    ensures RemainingSources(urls, outcomes) == []
  {
    CitationsNumberedInInputOrder(urls, outcomes);
    WhereNone(outcomes, Fetched);
    RemainingSourcesAreSurvivors(urls, outcomes);
  }

  /** The context text is the concatenation of the per-entry texts. */
  lemma {:induction false} RenderAppend(a: seq<Citation>, b: seq<Citation>)
    ensures Render(a + b) == Render(a) + Render(b)
  {
    if |b| == 0 {
      assert a + b == a;
    } else {
      var n := |b| - 1;
      assert (a + b)[..|a + b| - 1] == a + b[..n];
      assert (a + b)[|a + b| - 1] == b[n];
      assert Render(a + b) == Render(a + b[..n]) + Interleave(EntryText(b[n]));
      RenderAppend(a, b[..n]);
      assert Render(b) == Render(b[..n]) + Interleave(EntryText(b[n]));
    }
  }

  /** Taking every other character undoes `"\n".join`. */
  lemma {:induction false} EvenCharsInterleave(s: string)
    ensures EvenChars(Interleave(s)) == s
  {
    if |s| > 1 {
      var r := Interleave(s);
      assert r[2..] == Interleave(s[1..]);
      EvenCharsInterleave(s[1..]);
      assert s == [s[0]] + s[1..];
    }
  }

  /** The number a reader finds between the first two slashes of an entry. */
  function ReadNumber(entry: string): nat
    requires |entry| > 0
  {
    Value(LeadingDigits(entry[1..]))
  }

  /** Each entry of the context text, with its newlines taken out, starts with
      its citation number: the number written is the number given. */
  lemma CitationNumberReadBack(c: Citation)
    ensures ReadNumber(EvenChars(Interleave(EntryText(c)))) == c.number
  {
    EvenCharsInterleave(EntryText(c));
    LeadingDigitsStop(Show(c.number), EntryTail(c));
    ValueOfShow(c.number);
  }

  /** A search with four results whose third fetch fails: the citations are
      numbered 1, 2 and 3 and point at results 0, 1 and 3. */
  lemma ThirdOfFourFails(u0: string, u1: string, u2: string, u3: string, t0: string, t1: string, t3: string)
    ensures Citations([u0, u1, u2, u3], [Some(t0), Some(t1), None, Some(t3)])
         == [Citation(1, u0, t0), Citation(2, u1, t1), Citation(3, u3, t3)]
  {
    var urls := [u0, u1, u2, u3];
    var outcomes := [Some(t0), Some(t1), None, Some(t3)];
    assert Survivors(urls[..1], outcomes[..1]) == [Page(u0, t0)] by {
      LoopStep(urls, outcomes, 0);
    }
    assert Survivors(urls[..2], outcomes[..2]) == [Page(u0, t0), Page(u1, t1)] by {
      LoopStep(urls, outcomes, 1);
    }
    assert Survivors(urls[..3], outcomes[..3]) == [Page(u0, t0), Page(u1, t1)] by {
      LoopStep(urls, outcomes, 2);
    }
    assert Survivors(urls, outcomes) == [Page(u0, t0), Page(u1, t1), Page(u3, t3)] by {
      LoopStep(urls, outcomes, 3);
      assert urls[..4] == urls && outcomes[..4] == outcomes;
    }
    var cs := Number([Page(u0, t0), Page(u1, t1), Page(u3, t3)]);
    assert cs[0] == Citation(1, u0, t0) && cs[1] == Citation(2, u1, t1) && cs[2] == Citation(3, u3, t3);
  }

  /** With a repeated URL, `list.remove` deletes its first occurrence, so the
      printed sources no longer line up with the citation numbers: citation 1
      is the first a, but the first printed source is b. */
  lemma RepeatedUrlShiftsSources(a: string, b: string, x: string, y: string)
    requires a != b
    ensures Citations([a, b, a], [Some(x), Some(y), None]) == [Citation(1, a, x), Citation(2, b, y)]
    ensures SurvivingUrls([a, b, a], [Some(x), Some(y), None]) == [a, b]
    ensures RemainingSources([a, b, a], [Some(x), Some(y), None]) == [b, a]
  {
    var urls := [a, b, a];
    var outcomes := [Some(x), Some(y), None];
    PrefixStates(urls, outcomes);
    assert RemoveFirst(urls, a) == [b, a];
    var pages := [Page(a, x), Page(b, y)];
    assert Number(pages) == [Citation(1, a, x), Citation(2, b, y)];
  }

  lemma PrefixStates(urls: seq<string>, outcomes: seq<Option<string>>)
    requires |urls| == |outcomes| == 3 && urls[0] == urls[2]
    requires outcomes[0].Some? && outcomes[1].Some? && outcomes[2].None?
    ensures Survivors(urls, outcomes) == [Page(urls[0], outcomes[0].value), Page(urls[1], outcomes[1].value)]
    ensures SurvivingUrls(urls, outcomes) == [urls[0], urls[1]]
    ensures RemoveFailed(urls, urls, outcomes) == RemoveFirst(urls, urls[0])
  {
    LoopStep(urls, outcomes, 0);
    LoopStep(urls, outcomes, 1);
    LoopStep(urls, outcomes, 2);
    assert urls[..3] == urls && outcomes[..3] == outcomes;
  }
}
