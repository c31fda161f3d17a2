/** The records the crawlers produce (`PageData`, `ScrapeResult`), the
    cleaning applied to every fetched body, and the sequence of records a
    sequential run appends for a given fetch order. */
module Pages {
  import opened ByteStrings
  import opened Helpers
  import opened Site
  import Quick

  /** `PageData`. */
  datatype PageData = PageData(url: Bytes, text: Bytes)

  /** `ScrapeResult`. */
  datatype ScrapeResult = ScrapeResult(pages: seq<PageData>)

  /** The package declares `cleanAndTrim` twice, in helpers.go and in
      quick.go, with different bodies; the crawlers are modelled under
      either. */
  datatype CleanVariant = TrimOnly | FullPipeline

  function CleanAndTrim(variant: CleanVariant, text: Bytes, minLen: int, maxLen: nat): (r: Bytes)
    ensures |r| <= maxLen
  {
    match variant
    case TrimOnly => Quick.CleanAndTrimQuick(text, minLen, maxLen)
    case FullPipeline => CleanAndTrimFull(text, minLen, maxLen)
  }

  /** The text a body callback records: `cleanAndTrim(stripHTML(text), minLen, maxLen)`. */
  function BodyText(variant: CleanVariant, minLen: int, maxLen: nat, text: Bytes): (r: Bytes)
    ensures |r| <= maxLen
  {
    CleanAndTrim(variant, StripHtml(text), minLen, maxLen)
  }

  /** The records appended, one per URL of `urls` that fetches, in fetch
      order. */
  function Records(variant: CleanVariant, minLen: int, maxLen: nat, site: Site, urls: seq<Bytes>): seq<PageData>
    decreases |urls|
  {
    if urls == [] then []
    else
      var init := Records(variant, minLen, maxLen, site, urls[..|urls| - 1]);
      var u := urls[|urls| - 1];
      if u in site then init + [PageData(u, BodyText(variant, minLen, maxLen, site[u].text))] else init
  }

  /** Fetching one more URL appends its record when it fetches. */
  lemma RecordsSnoc(variant: CleanVariant, minLen: int, maxLen: nat, site: Site, urls: seq<Bytes>, u: Bytes)
    ensures Records(variant, minLen, maxLen, site, urls + [u])
            == if u in site then Records(variant, minLen, maxLen, site, urls) + [PageData(u, BodyText(variant, minLen, maxLen, site[u].text))]
               else Records(variant, minLen, maxLen, site, urls)
  {
    assert (urls + [u])[..|urls|] == urls;
  }

  /** Every record is of a URL that was fetched, and carries the cleaned
      text of that page. */
  lemma {:induction false} RecordsSound(variant: CleanVariant, minLen: int, maxLen: nat, site: Site, urls: seq<Bytes>)
    ensures forall i | 0 <= i < |Records(variant, minLen, maxLen, site, urls)| ::
      var p := Records(variant, minLen, maxLen, site, urls)[i];
      p.url in urls && p.url in site && p.text == BodyText(variant, minLen, maxLen, site[p.url].text)
    decreases |urls|
  {
    if urls != [] {
      var init := urls[..|urls| - 1];
      RecordsSound(variant, minLen, maxLen, site, init);
      assert forall u | u in init :: u in urls;
    }
  }

  /** Every record is of a fetched URL. */
  lemma RecordUrls(variant: CleanVariant, minLen: int, maxLen: nat, site: Site, urls: seq<Bytes>)
    ensures forall i | 0 <= i < |Records(variant, minLen, maxLen, site, urls)| ::
      Records(variant, minLen, maxLen, site, urls)[i].url in urls
  {
    RecordsSound(variant, minLen, maxLen, site, urls);
  }

  /** Every fetched URL that fetches successfully has a record. */
  lemma {:induction false} RecordsComplete(variant: CleanVariant, minLen: int, maxLen: nat, site: Site, urls: seq<Bytes>, u: Bytes)
    requires u in urls && u in site
    ensures exists i | 0 <= i < |Records(variant, minLen, maxLen, site, urls)| ::
      Records(variant, minLen, maxLen, site, urls)[i].url == u
    decreases |urls|
  {
    var r := Records(variant, minLen, maxLen, site, urls);
    var init := urls[..|urls| - 1];
    if urls[|urls| - 1] == u {
      assert r[|r| - 1].url == u;
    } else {
      assert urls == init + [urls[|urls| - 1]];
      assert u in init;
      RecordsComplete(variant, minLen, maxLen, site, init, u);
      var i :| 0 <= i < |Records(variant, minLen, maxLen, site, init)| && Records(variant, minLen, maxLen, site, init)[i].url == u;
      assert r[i].url == u;
    }
  }

  /** No value outside `xs` appears twice in `s`. */
  ghost predicate DistinctExcept(s: seq<Bytes>, xs: set<Bytes>) {
    forall i, j | 0 <= i < j < |s| :: s[i] == s[j] ==> s[i] in xs
  }

  /** No URL outside `xs` has two records. */
  ghost predicate RecordsDistinctExcept(ps: seq<PageData>, xs: set<Bytes>) {
    forall i, j | 0 <= i < j < |ps| :: ps[i].url == ps[j].url ==> ps[i].url in xs
  }

  /** When no URL outside `x` is fetched twice, no URL outside `x` is
      recorded twice. */
  lemma {:induction false} RecordsDistinct(variant: CleanVariant, minLen: int, maxLen: nat, site: Site, urls: seq<Bytes>, x: set<Bytes>)
    requires DistinctExcept(urls, x)
    ensures RecordsDistinctExcept(Records(variant, minLen, maxLen, site, urls), x)
    decreases |urls|
  {
    if urls != [] {
      var init := urls[..|urls| - 1];
      var u := urls[|urls| - 1];
      var ri := Records(variant, minLen, maxLen, site, init);
      assert forall i | 0 <= i < |init| :: init[i] == urls[i];
      RecordsDistinct(variant, minLen, maxLen, site, init, x);
      if u in site {
        RecordUrls(variant, minLen, maxLen, site, init);
        var r := Records(variant, minLen, maxLen, site, urls);
        assert r == ri + [PageData(u, BodyText(variant, minLen, maxLen, site[u].text))];
        forall i, j | 0 <= i < j < |r| && r[i].url == r[j].url ensures r[i].url in x {
          if j == |ri| {
            assert r[i] == ri[i] && ri[i].url in init;
            var k :| 0 <= k < |init| && init[k] == ri[i].url;
            assert urls[k] == init[k] && urls[|urls| - 1] == u;
          } else {
            assert r[i] == ri[i] && r[j] == ri[j];
          }
        }
      }
    }
  }

  /** Fetching `a`, then `b`, records the pages of `a`, then those of `b`. */
  lemma {:induction false} RecordsAppend(variant: CleanVariant, minLen: int, maxLen: nat, site: Site, a: seq<Bytes>, b: seq<Bytes>)
    ensures Records(variant, minLen, maxLen, site, a + b)
            == Records(variant, minLen, maxLen, site, a) + Records(variant, minLen, maxLen, site, b)
    decreases |b|
  {
    if b == [] {
      assert a + b == a;
    } else {
      var init, x := b[..|b| - 1], b[|b| - 1];
      assert a + b == (a + init) + [x];
      assert b == init + [x];
      RecordsAppend(variant, minLen, maxLen, site, a, init);
      RecordsSnoc(variant, minLen, maxLen, site, a + init, x);
      RecordsSnoc(variant, minLen, maxLen, site, init, x);
    }
  }

  /** When no URL is fetched twice, a page fetched before another that is
      recorded is recorded before it. */
  lemma RecordedBefore(variant: CleanVariant, minLen: int, maxLen: nat, site: Site, fetched: seq<Bytes>, m: int, n: int, i: int)
    requires Distinct(fetched) && 0 <= m < n < |fetched| && fetched[m] in site
    requires 0 <= i < |Records(variant, minLen, maxLen, site, fetched)|
    requires Records(variant, minLen, maxLen, site, fetched)[i].url == fetched[n]
    ensures exists j | 0 <= j < i :: Records(variant, minLen, maxLen, site, fetched)[j].url == fetched[m]
  {
    var pre, post := fetched[..n], fetched[n..];
    assert fetched == pre + post;
    RecordsAppend(variant, minLen, maxLen, site, pre, post);
    var rp := Records(variant, minLen, maxLen, site, pre);
    assert pre[m] == fetched[m];
    RecordsComplete(variant, minLen, maxLen, site, pre, fetched[m]);
    var j :| 0 <= j < |rp| && rp[j].url == fetched[m];
    RecordUrls(variant, minLen, maxLen, site, pre);
    assert Records(variant, minLen, maxLen, site, fetched)[j] == rp[j];
  }

  /** When every fetched URL but the first is linked from a page fetched
      before it, every record but the first URL's is the resolved link of
      an anchor on a page recorded before it. */
  lemma RecordsLinked(variant: CleanVariant, minLen: int, maxLen: nat, site: Site, fetched: seq<Bytes>)
    requires fetched != [] && Distinct(fetched) && Linked(site, fetched, fetched)
    ensures var ps := Records(variant, minLen, maxLen, site, fetched);
      forall i | 0 <= i < |ps| && ps[i].url != fetched[0] ::
        exists j, k | 0 <= j < i && ps[j].url in site && 0 <= k < |site[ps[j].url].anchors| ::
          site[ps[j].url].anchors[k].abs == ps[i].url
  {
    var ps := Records(variant, minLen, maxLen, site, fetched);
    RecordUrls(variant, minLen, maxLen, site, fetched);
    forall i | 0 <= i < |ps| && ps[i].url != fetched[0]
      ensures exists j, k | 0 <= j < i && ps[j].url in site && 0 <= k < |site[ps[j].url].anchors| ::
        site[ps[j].url].anchors[k].abs == ps[i].url
    {
      var n :| 0 <= n < |fetched| && fetched[n] == ps[i].url;
      assert LinkedBefore(site, fetched, n, fetched[n]);
      var m, k :| 0 <= m < n && m < |fetched| && fetched[m] in site && 0 <= k < |site[fetched[m]].anchors| &&
        site[fetched[m]].anchors[k].abs == fetched[n];
      RecordedBefore(variant, minLen, maxLen, site, fetched, m, n, i);
      var j :| 0 <= j < i && ps[j].url == fetched[m];
      assert site[ps[j].url].anchors[k].abs == ps[i].url;
    }
  }
}
