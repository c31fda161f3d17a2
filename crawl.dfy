/** `QuickScrape` and `ProductScrape`: a collector restricted to the start
    URL's domain records the cleaned body of every page it fetches, and
    follows every resolved link that passes a keyword test and has not been
    claimed before. The two differ only in the keyword test and the length
    bounds, so they share one crawler parameterised by a `Task`. */
module Crawl {
  import opened ByteStrings
  import opened Helpers
  import opened Site
  import opened Pages
  import Quick
  import Product

  datatype Task = QuickTask | ProductTask

  /** The keyword test of the link handler: `containsKeyword` for the
      quick crawler, `containsAnyKeyword(link, productKeywords)` for the
      product crawler. */
  predicate Wanted(task: Task, link: Bytes) {
    match task
    case QuickTask => Quick.ContainsKeyword(link)
    case ProductTask => Product.ContainsAnyKeyword(link, Product.ProductKeywords)
  }

  const MinLen: int := 400

  function MaxLen(task: Task): nat {
    match task
    case QuickTask => 2000
    case ProductTask => 1000
  }

  /** The state the two callbacks share: the `visited` map of the link
      handler and the `pages` slice the body handler appends to. */
  class FollowCrawler {
    const task: Task
    const variant: CleanVariant
    var visited: set<Bytes>
    var pages: seq<PageData>

    /** Only links that passed the test are ever claimed. */
    ghost predicate Valid()
      reads this
    {
      forall u | u in visited :: u != [] && Wanted(task, u)
    }

    constructor (task: Task, variant: CleanVariant)
      ensures this.task == task && this.variant == variant
      ensures visited == {} && pages == []
      ensures Valid()
    {
      this.task := task;
      this.variant := variant;
      visited := {};
      pages := [];
    }

    /** The `body` callback: one record per fetched page. */
    method OnBody(url: Bytes, text: Bytes)
      modifies this`pages
      ensures pages == old(pages) + [PageData(url, BodyText(variant, MinLen, MaxLen(task), text))]
    {
      var cleanText := CleanAndTrim(variant, StripHtml(text), MinLen, MaxLen(task));
      pages := pages + [PageData(url, cleanText)];
    }

    /** The `a[href]` callback on the resolved link: reports whether the
        link is handed to `Visit`. */
    method OnLink(link: Bytes) returns (follow: bool)
      requires Valid()
      modifies this`visited
      ensures Valid()
      ensures follow <==> link != [] && link !in old(visited) && Wanted(task, link)
      ensures visited == if follow then old(visited) + {link} else old(visited)
    {
      if link == [] || link in visited {
        return false;
      }
      follow := match task
        case QuickTask => Quick.ContainsKeyword(link)
        case ProductTask => Product.ContainsAnyKeyword(link, Product.ProductKeywords);
      if follow {
        visited := visited + {link};
      }
    }
  }

  /** The link handler has dealt with `link`: it was empty, failed the
      keyword test, or is claimed. */
  ghost predicate Handled(task: Task, visited: set<Bytes>, link: Bytes) {
    link == [] || !Wanted(task, link) || link in visited
  }

  /** The first `n` anchors of page `u` (if it fetches) are handled. */
  ghost predicate AnchorsHandled(task: Task, site: Site, visited: set<Bytes>, u: Bytes, n: int) {
    u in site ==> forall k | 0 <= k < n && k < |site[u].anchors| :: Handled(task, visited, site[u].anchors[k].abs)
  }

  /** Every anchor of page `u` (if it fetches) is handled. */
  ghost predicate PageHandled(task: Task, site: Site, visited: set<Bytes>, u: Bytes) {
    u in site ==> forall k | 0 <= k < |site[u].anchors| :: Handled(task, visited, site[u].anchors[k].abs)
  }

  /** What the collector has admitted (`order`: fetched, then pending)
      relative to the crawler's claims: each admitted once, the start URL
      first, every other one claimed and inside the allowed domain, and
      every claimed link inside the domain admitted. */
  ghost predicate Admitted(start: Bytes, allowed: Bytes, visited: set<Bytes>, seen: set<Bytes>, order: seq<Bytes>) {
    && |order| > 0 && order[0] == start
    && Distinct(order)
    && (forall x :: x in seen <==> x in order)
    && (forall i | 0 <= i < |order| :: order[i] == start || (order[i] in visited && GetDomain(order[i]) == allowed))
    && (forall x | x in visited && GetDomain(x) == allowed :: x in seen)
  }

  /** The collector admits a followed, in-domain, new link. */
  lemma AdmitLink(start: Bytes, allowed: Bytes, v0: set<Bytes>, seen: set<Bytes>, order: seq<Bytes>, link: Bytes)
    requires Admitted(start, allowed, v0, seen, order)
    requires GetDomain(link) == allowed && link !in seen
    ensures Admitted(start, allowed, v0 + {link}, seen + {link}, order + [link])
  {
    var o := order + [link];
    forall i, j | 0 <= i < j < |o| ensures o[i] != o[j] {
      if j == |order| {
        assert o[i] == order[i] && order[i] in seen;
      }
    }
  }

  /** A link that is not admitted: not followed, outside the domain, or
      already requested. */
  lemma KeepLink(start: Bytes, allowed: Bytes, v0: set<Bytes>, v1: set<Bytes>, seen: set<Bytes>, order: seq<Bytes>, link: Bytes)
    requires Admitted(start, allowed, v0, seen, order)
    requires v1 == v0 || (v1 == v0 + {link} && (GetDomain(link) != allowed || link in seen))
    ensures Admitted(start, allowed, v1, seen, order)
  {
  }

  /** The link callback on anchor `i` of page `u` leaves anchors `0..i`
      handled. */
  lemma HandleAnchor(task: Task, site: Site, v0: set<Bytes>, v1: set<Bytes>, u: Bytes, i: int)
    requires u in site && 0 <= i < |site[u].anchors|
    requires AnchorsHandled(task, site, v0, u, i) && v0 <= v1
    requires Handled(task, v1, site[u].anchors[i].abs)
    ensures AnchorsHandled(task, site, v1, u, i + 1)
  {
  }

  /** Handled pages stay handled as the claims grow. */
  lemma PagesHandledGrow(task: Task, site: Site, v0: set<Bytes>, v1: set<Bytes>, fetched: seq<Bytes>, n: int)
    requires v0 <= v1
    requires forall m | 0 <= m < n && m < |fetched| :: PageHandled(task, site, v0, fetched[m])
    ensures forall m | 0 <= m < n && m < |fetched| :: PageHandled(task, site, v1, fetched[m])
  {
    forall m | 0 <= m < n && m < |fetched| ensures PageHandled(task, site, v1, fetched[m]) {
      assert PageHandled(task, site, v0, fetched[m]);
    }
  }

  /** The link callback over the anchors of the fetched page `u` (the last
      of `fetched`), with the collector admitting what it follows. */
  method FollowAnchors(c: FollowCrawler, site: Site, start: Bytes, u: Bytes,
                       seen: set<Bytes>, pending: seq<Bytes>, ghost fetched: seq<Bytes>)
    returns (seen': set<Bytes>, pending': seq<Bytes>)
    requires c.Valid() && u in site && |fetched| > 0 && fetched[|fetched| - 1] == u
    requires Admitted(start, GetDomain(start), c.visited, seen, fetched + pending)
    requires seen <= Strings(site) + {start}
    requires forall m | 0 <= m < |fetched| - 1 :: PageHandled(c.task, site, c.visited, fetched[m])
    requires Linked(site, fetched, fetched + pending)
    modifies c`visited
    ensures c.Valid()
    ensures Admitted(start, GetDomain(start), c.visited, seen', fetched + pending')
    ensures seen <= seen' <= Strings(site) + {start}
    ensures seen' == seen ==> pending' == pending
    ensures forall m | 0 <= m < |fetched| :: PageHandled(c.task, site, c.visited, fetched[m])
    ensures Linked(site, fetched, fetched + pending')
  {
    var allowed := GetDomain(start);
    var page := site[u];
    seen', pending' := seen, pending;
    var i := 0;
    while i < |page.anchors|
      invariant 0 <= i <= |page.anchors|
      invariant c.Valid()
      invariant Admitted(start, allowed, c.visited, seen', fetched + pending')
      invariant seen <= seen' <= Strings(site) + {start}
      invariant seen' == seen ==> pending' == pending
      invariant forall m | 0 <= m < |fetched| - 1 :: PageHandled(c.task, site, c.visited, fetched[m])
      invariant AnchorsHandled(c.task, site, c.visited, u, i)
      invariant Linked(site, fetched, fetched + pending')
    {
      var link := page.anchors[i].abs;
      ghost var v0 := c.visited;
      ghost var order := fetched + pending';
      var follow := c.OnLink(link);
      PagesHandledGrow(c.task, site, v0, c.visited, fetched, |fetched| - 1);
      HandleAnchor(c.task, site, v0, c.visited, u, i);
      if follow && GetDomain(link) == allowed && link !in seen' {
        AnchorInStrings(site, u, i);
        AdmitLink(start, allowed, v0, seen', order, link);
        LinkedAdmit(site, fetched, order, i);
        AppendTail(fetched, pending', link);
        seen' := seen' + {link};
        pending' := pending' + [link];
      } else {
        KeepLink(start, allowed, v0, c.visited, seen', order, link);
      }
      i := i + 1;
    }
  }

  /** The crawl state between two fetches. */
  ghost predicate Crawling(c: FollowCrawler, site: Site, start: Bytes, seen: set<Bytes>, pending: seq<Bytes>, fetched: seq<Bytes>)
    reads c
  {
    && c.Valid()
    && Admitted(start, GetDomain(start), c.visited, seen, fetched + pending)
    && c.pages == Records(c.variant, MinLen, MaxLen(c.task), site, fetched)
    && seen <= Strings(site) + {start}
    && (forall m | 0 <= m < |fetched| :: PageHandled(c.task, site, c.visited, fetched[m]))
    && Linked(site, fetched, fetched + pending)
  }

  /** The state after the collector admits the start URL. */
  lemma CrawlingStart(c: FollowCrawler, site: Site, start: Bytes)
    requires c.Valid() && c.visited == {} && c.pages == []
    ensures Crawling(c, site, start, {start}, [start], [])
  {
    assert [] + [start] == [start];
  }

  /** The collector fetches the next admitted URL; when it fetches, the
      body callback records it and the link callback runs on its anchors. */
  method FetchNext(c: FollowCrawler, site: Site, start: Bytes, seen: set<Bytes>, pending: seq<Bytes>, ghost fetched: seq<Bytes>)
    returns (seen': set<Bytes>, pending': seq<Bytes>, ghost fetched': seq<Bytes>)
    requires pending != [] && Crawling(c, site, start, seen, pending, fetched)
    modifies c`visited, c`pages
    ensures Crawling(c, site, start, seen', pending', fetched')
    ensures seen <= seen'
    ensures seen' == seen ==> |pending'| < |pending|
  {
    var u := pending[0];
    LinkedExtend(site, fetched, u, fetched + pending);
    MoveHead(fetched, pending);
    fetched' := fetched + [u];
    pending' := pending[1..];
    seen' := seen;
    if u in site {
      var page := site[u];
      c.OnBody(u, page.text);
      seen', pending' := FollowAnchors(c, site, start, u, seen', pending', fetched');
    }
  }

  /** The crawl itself, with colly's scheduling made sequential: the
      collector admits `start`, then each admitted URL is fetched in turn
      (callbacks fire only when it fetches), the body callback before the
      link callback on each anchor, and each followed link is admitted
      when its domain is the allowed one and it was not requested before. */
  method Scrape(task: Task, variant: CleanVariant, site: Site, start: Bytes) returns (r: ScrapeResult)
    ensures ScrapedPages(task, variant, site, start, r.pages)
    ensures ScrapedClosed(task, site, start, r.pages)
  {
    var c := new FollowCrawler(task, variant);
    ghost var seen, fetched := CrawlFrom(c, site, start);
    ScrapeOutcome(task, variant, site, start, c.visited, seen, fetched);
    r := ScrapeResult(c.pages);
  }

  /** What a finished sequential scrape returns, record by record: every
      record is a fetched page of the site with its cleaned text, is the
      start page or a wanted page of the start page's domain, and appears
      once; the start page is recorded when it fetches. */
  ghost predicate ScrapedPages(task: Task, variant: CleanVariant, site: Site, start: Bytes, ps: seq<PageData>) {
    && (forall i | 0 <= i < |ps| ::
         ps[i].url in site && ps[i].text == BodyText(variant, MinLen, MaxLen(task), site[ps[i].url].text))
    && (forall i | 0 <= i < |ps| ::
         ps[i].url == start || (Wanted(task, ps[i].url) && GetDomain(ps[i].url) == GetDomain(start)))
    && (forall i, j | 0 <= i < j < |ps| :: ps[i].url != ps[j].url)
    && (start in site ==> exists i | 0 <= i < |ps| :: ps[i].url == start)
  }

  /** The records of a finished sequential scrape are closed under links:
      every wanted same-domain anchor target of a recorded page that
      fetches is recorded, and every record other than the start page is
      the target of an anchor of a page recorded before it. */
  ghost predicate ScrapedClosed(task: Task, site: Site, start: Bytes, ps: seq<PageData>) {
    && (forall i, k | 0 <= i < |ps| && ps[i].url in site && 0 <= k < |site[ps[i].url].anchors| ::
         var a := site[ps[i].url].anchors[k].abs;
         a != [] && Wanted(task, a) && GetDomain(a) == GetDomain(start) && a in site ==>
           exists j | 0 <= j < |ps| :: ps[j].url == a)
    && (forall i | 0 <= i < |ps| && ps[i].url != start ::
         exists j, k | 0 <= j < i && ps[j].url in site && 0 <= k < |site[ps[j].url].anchors| ::
           site[ps[j].url].anchors[k].abs == ps[i].url)
  }

  /** The collector's crawl, from `start` until nothing is pending. */
  method CrawlFrom(c: FollowCrawler, site: Site, start: Bytes) returns (ghost seen: set<Bytes>, ghost fetched: seq<Bytes>)
    requires c.Valid() && c.visited == {} && c.pages == []
    modifies c`visited, c`pages
    ensures Finished(c.task, site, start, c.visited, seen, fetched)
    ensures c.pages == Records(c.variant, MinLen, MaxLen(c.task), site, fetched)
  {
    ghost var universe := Strings(site) + {start};
    var seen' := {start};
    var pending := [start];
    fetched := [];
    CrawlingStart(c, site, start);
    while pending != []
      invariant Crawling(c, site, start, seen', pending, fetched)
      decreases |universe - seen'|, |pending|
    {
      ghost var seen0 := seen';
      seen', pending, fetched := FetchNext(c, site, start, seen', pending, fetched);
      if seen' != seen0 {
        RemainderShrinks(universe, seen0, seen');
      }
    }
    CrawlingDone(c, site, start, seen', fetched);
    seen := seen';
  }

  lemma CrawlingDone(c: FollowCrawler, site: Site, start: Bytes, seen: set<Bytes>, fetched: seq<Bytes>)
    requires Crawling(c, site, start, seen, [], fetched)
    ensures Finished(c.task, site, start, c.visited, seen, fetched)
    ensures c.pages == Records(c.variant, MinLen, MaxLen(c.task), site, fetched)
  {
    assert fetched + [] == fetched;
  }

  /** Everything a finished crawl guarantees about its records. */
  lemma ScrapeOutcome(task: Task, variant: CleanVariant, site: Site, start: Bytes,
                      visited: set<Bytes>, seen: set<Bytes>, fetched: seq<Bytes>)
    requires Finished(task, site, start, visited, seen, fetched)
    ensures ScrapedPages(task, variant, site, start, Records(variant, MinLen, MaxLen(task), site, fetched))
    ensures ScrapedClosed(task, site, start, Records(variant, MinLen, MaxLen(task), site, fetched))
  {
    OutcomeSound(task, variant, site, start, visited, seen, fetched);
    StartRecorded(variant, MaxLen(task), site, start, seen, fetched, visited, GetDomain(start));
    OutcomeClosed(task, variant, site, start, visited, seen, fetched);
    OutcomeReached(task, variant, site, start, visited, seen, fetched);
  }

  /** The facts a finished crawl (nothing pending) holds. */
  ghost predicate Finished(task: Task, site: Site, start: Bytes, visited: set<Bytes>, seen: set<Bytes>, fetched: seq<Bytes>) {
    && (forall u | u in visited :: u != [] && Wanted(task, u))
    && Admitted(start, GetDomain(start), visited, seen, fetched)
    && (forall m | 0 <= m < |fetched| :: PageHandled(task, site, visited, fetched[m]))
    && Linked(site, fetched, fetched)
  }

  /** Every record is of a page the crawl was allowed to fetch, with that
      page's cleaned text, and no page is recorded twice. */
  lemma OutcomeSound(task: Task, variant: CleanVariant, site: Site, start: Bytes,
                     visited: set<Bytes>, seen: set<Bytes>, fetched: seq<Bytes>)
    requires Finished(task, site, start, visited, seen, fetched)
    ensures var ps := Records(variant, MinLen, MaxLen(task), site, fetched);
      && (forall i | 0 <= i < |ps| ::
           ps[i].url in site && ps[i].text == BodyText(variant, MinLen, MaxLen(task), site[ps[i].url].text))
      && (forall i | 0 <= i < |ps| ::
           ps[i].url == start || (Wanted(task, ps[i].url) && GetDomain(ps[i].url) == GetDomain(start)))
      && (forall i, j | 0 <= i < j < |ps| :: ps[i].url != ps[j].url)
  {
    var ps := Records(variant, MinLen, MaxLen(task), site, fetched);
    RecordsSound(variant, MinLen, MaxLen(task), site, fetched);
    assert DistinctExcept(fetched, {});
    RecordsDistinct(variant, MinLen, MaxLen(task), site, fetched, {});
    forall i | 0 <= i < |ps|
      ensures ps[i].url == start || (Wanted(task, ps[i].url) && GetDomain(ps[i].url) == GetDomain(start))
    {
      var n :| 0 <= n < |fetched| && fetched[n] == ps[i].url;
      assert fetched[n] == start || (fetched[n] in visited && GetDomain(fetched[n]) == GetDomain(start));
    }
  }

  /** The start page, when it fetches, is recorded. */
  lemma StartRecorded(variant: CleanVariant, maxLen: nat, site: Site, start: Bytes, seen: set<Bytes>, fetched: seq<Bytes>, v: set<Bytes>, allowed: Bytes)
    requires Admitted(start, allowed, v, seen, fetched)
    ensures var ps := Records(variant, MinLen, maxLen, site, fetched);
      start in site ==> exists i | 0 <= i < |ps| :: ps[i].url == start
  {
    if start in site {
      RecordsComplete(variant, MinLen, maxLen, site, fetched, start);
    }
  }

  /** Every fetching, keyword-matching, in-domain target of a recorded page
      is recorded. */
  lemma OutcomeClosed(task: Task, variant: CleanVariant, site: Site, start: Bytes,
                      visited: set<Bytes>, seen: set<Bytes>, fetched: seq<Bytes>)
    requires Admitted(start, GetDomain(start), visited, seen, fetched)
    requires forall m | 0 <= m < |fetched| :: PageHandled(task, site, visited, fetched[m])
    ensures var ps := Records(variant, MinLen, MaxLen(task), site, fetched);
      forall i, k | 0 <= i < |ps| && ps[i].url in site && 0 <= k < |site[ps[i].url].anchors| ::
        var a := site[ps[i].url].anchors[k].abs;
        a != [] && Wanted(task, a) && GetDomain(a) == GetDomain(start) && a in site ==>
          exists j | 0 <= j < |ps| :: ps[j].url == a
  {
    var ps := Records(variant, MinLen, MaxLen(task), site, fetched);
    RecordUrls(variant, MinLen, MaxLen(task), site, fetched);
    forall i, k | 0 <= i < |ps| && ps[i].url in site && 0 <= k < |site[ps[i].url].anchors|
      ensures var a := site[ps[i].url].anchors[k].abs;
        a != [] && Wanted(task, a) && GetDomain(a) == GetDomain(start) && a in site ==>
          exists j | 0 <= j < |ps| :: ps[j].url == a
    {
      var a := site[ps[i].url].anchors[k].abs;
      var m :| 0 <= m < |fetched| && fetched[m] == ps[i].url;
      assert PageHandled(task, site, visited, fetched[m]);
      if a != [] && Wanted(task, a) && GetDomain(a) == GetDomain(start) && a in site {
        assert Handled(task, visited, a);
        assert a in seen;
        RecordsComplete(variant, MinLen, MaxLen(task), site, fetched, a);
      }
    }
  }

  /** Every record other than the start page's is the target of an anchor
      on a page recorded before it. */
  lemma OutcomeReached(task: Task, variant: CleanVariant, site: Site, start: Bytes,
                       visited: set<Bytes>, seen: set<Bytes>, fetched: seq<Bytes>)
    requires Finished(task, site, start, visited, seen, fetched)
    ensures var ps := Records(variant, MinLen, MaxLen(task), site, fetched);
      forall i | 0 <= i < |ps| && ps[i].url != start ::
        exists j, k | 0 <= j < i && ps[j].url in site && 0 <= k < |site[ps[j].url].anchors| ::
          site[ps[j].url].anchors[k].abs == ps[i].url
  {
    RecordsLinked(variant, MinLen, MaxLen(task), site, fetched);
  }

  /** `QuickScrape`: about/info/contact pages of the start URL's site, each
      with its body cleaned to at most 2000 bytes (nothing under 400). */
  method QuickScrape(variant: CleanVariant, site: Site, start: Bytes) returns (r: ScrapeResult)
    ensures forall i | 0 <= i < |r.pages| ::
      r.pages[i].url in site && r.pages[i].text == BodyText(variant, 400, 2000, site[r.pages[i].url].text)
    ensures forall i | 0 <= i < |r.pages| :: |r.pages[i].text| <= 2000
    ensures forall i | 0 <= i < |r.pages| ::
      r.pages[i].url == start || (Quick.ContainsKeyword(r.pages[i].url) && GetDomain(r.pages[i].url) == GetDomain(start))
    ensures forall i, j | 0 <= i < j < |r.pages| :: r.pages[i].url != r.pages[j].url
    ensures start in site ==> exists i | 0 <= i < |r.pages| :: r.pages[i].url == start
    ensures ScrapedClosed(QuickTask, site, start, r.pages)
  {
    r := Scrape(QuickTask, variant, site, start);
    forall i | 0 <= i < |r.pages| && r.pages[i].url != start
      ensures Quick.ContainsKeyword(r.pages[i].url) && GetDomain(r.pages[i].url) == GetDomain(start)
    {
      assert Wanted(QuickTask, r.pages[i].url);
    }
  }

  /** `ProductScrape`: product and service pages of the start URL's site,
      each with its body cleaned to at most 1000 bytes (nothing under 400). */
  method ProductScrape(variant: CleanVariant, site: Site, start: Bytes) returns (r: ScrapeResult)
    ensures forall i | 0 <= i < |r.pages| ::
      r.pages[i].url in site && r.pages[i].text == BodyText(variant, 400, 1000, site[r.pages[i].url].text)
    ensures forall i | 0 <= i < |r.pages| :: |r.pages[i].text| <= 1000
    ensures forall i | 0 <= i < |r.pages| ::
      r.pages[i].url == start
      || (Product.ContainsAnyKeyword(r.pages[i].url, Product.ProductKeywords) && GetDomain(r.pages[i].url) == GetDomain(start))
    ensures forall i, j | 0 <= i < j < |r.pages| :: r.pages[i].url != r.pages[j].url
    ensures start in site ==> exists i | 0 <= i < |r.pages| :: r.pages[i].url == start
    ensures ScrapedClosed(ProductTask, site, start, r.pages)
  {
    r := Scrape(ProductTask, variant, site, start);
    forall i | 0 <= i < |r.pages| && r.pages[i].url != start
      ensures Product.ContainsAnyKeyword(r.pages[i].url, Product.ProductKeywords) && GetDomain(r.pages[i].url) == GetDomain(start)
    {
      assert Wanted(ProductTask, r.pages[i].url);
    }
  }
}
