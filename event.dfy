/** `EventCrawler` of scraper/event.go. One collector crawls the start
    URL's site, following links whose host is the start host and which
    mention an event keyword; the body callback hands every raw `href`
    whose host belongs to a virtual-event platform to a channel, and a
    second set of collectors fetches those pages as external. Both
    callbacks claim strings in one shared `visited` set, so a string is
    followed or handed off at most once, by whichever claims it first. */
module Event {
  import opened ByteStrings
  import opened Helpers
  import opened Site
  import opened Pages

  /** `ScrapedPage`. */
  datatype ScrapedPage = ScrapedPage(url: Bytes, text: Bytes, external: bool)

  /** `eventKeywords`; joined with `|` they form an unanchored,
      case-sensitive pattern. */
  const EventKeywords: seq<Bytes> :=
    ["event", "events", "webinar", "conference", "summit", "expo", "forum", "seminar"]

  /** The keywords that decide a match on their own: `events` extends
      `event`. */
  const EventStems: seq<Bytes> := ["event", "webinar", "conference", "summit", "expo", "forum", "seminar"]

  /** `platformDomainPatterns`, each an escaped literal, so a pattern
      matches a host exactly when the host contains it. */
  const PlatformDomains: seq<Bytes> := PlatformsA + PlatformsB + PlatformsC + PlatformsD + PlatformsE

  const PlatformsA: seq<Bytes> := [
    "hopin.com", "zoom.us", "webex.com", "airmeet.com", "vfairs.com", "eventbrite.com",
    "cvent.com", "bizzabo.com", "on24.com", "remo.co", "whova.com"]
  const PlatformsB: seq<Bytes> := [
    "brella.io", "runtheworld.today", "splashthat.com", "accelevents.com", "bigmarker.com",
    "6connex.com", "gotowebinar.com", "gotomeeting.com", "slido.com", "inevent.com"]
  const PlatformsC: seq<Bytes> := [
    "pheedloop.com", "swapcard.com", "eventzilla.net", "eventscase.com", "hubilo.com",
    "convene.com", "attendify.com", "socio.events", "eventcadence.com", "heysummit.com"]
  const PlatformsD: seq<Bytes> := [
    "meetyoo.com", "gathertown.com", "shindig.com", "hexafair.com", "veertly.com",
    "eventsair.com", "sched.com", "glisser.com", "meetingplay.com", "vconferenceonline.com", "expopass.com"]
  const PlatformsE: seq<Bytes> := [
    "bevy.com", "hubspot.com", "demio.com", "conferize.com", "tampevents.com", "tame.events",
    "spotme.com", "evvnt.com", "tickettailor.com", "ticketspice.com", "brighttalk.com"]

  const EventMinLen: int := 50
  const EventMaxLen: nat := 10000

  /** `matchEventKeyword.MatchString(link)`: a stem occurs in the link as
      written, without case folding. */
  function MatchEventKeyword(link: Bytes): (r: bool)
    ensures r <==> exists j | 0 <= j < |EventStems| :: IsSubstring(EventStems[j], link)
  {
    var r := AnyKeywordIn(link, EventKeywords);
    assert IsSubstring("events", link) ==> IsSubstring("event", link) by {
      if IsSubstring("events", link) {
        ExtensionSubsumed("event", "events", link);
      }
    }
    assert EventKeywords[0] == EventStems[0] && EventKeywords[1] == "events";
    assert forall j | 2 <= j < |EventKeywords| :: EventKeywords[j] == EventStems[j - 1];
    assert forall j | 1 <= j < |EventStems| :: EventStems[j] == EventKeywords[j + 1];
    r
  }

  /** The event pattern does not fold case: a link with no lower-case
      letter (a URL written in upper case) matches none of the keywords. */
  lemma UpperCaseLinkNoEventMatch(link: Bytes)
    requires forall i | 0 <= i < |link| :: !('a' <= link[i] <= 'z')
    ensures !MatchEventKeyword(link)
  {
    assert forall j | 0 <= j < |EventStems| :: |EventStems[j]| > 0 && 'a' <= EventStems[j][0] <= 'z';
    forall j, i | 0 <= j < |EventStems| ensures !OccursAt(EventStems[j], link, i) {
      var k := EventStems[j];
      if 0 <= i && i + |k| <= |link| {
        assert link[i..i + |k|][0] == link[i];
      }
    }
  }

  /** A URL holding an event keyword in lower case matches. */
  lemma LowerCaseUrlEventMatch()
    ensures MatchEventKeyword("https://example.com/events")
  {
    var lower: Bytes := "https://example.com/events";
    assert lower[20..25] == EventStems[0];
    assert OccursAt(EventStems[0], lower, 20);
  }

  /** The same URL written in upper case matches no keyword. */
  lemma UpperCaseUrlNoEventMatch()
    ensures !MatchEventKeyword("HTTPS://EXAMPLE.COM/EVENTS")
  {
    UpperCaseLinkNoEventMatch("HTTPS://EXAMPLE.COM/EVENTS");
  }

  /** The link rule's test after the claim: same host as the start URL and
      an event keyword. */
  predicate Followable(startDomain: Bytes, link: Bytes) {
    GetDomain(link) == startDomain && MatchEventKeyword(link)
  }

  /** Some pattern of `platforms` matches the host. */
  predicate PlatformHost(platforms: seq<Bytes>, host: Bytes) {
    AnyKeywordIn(host, platforms)
  }

  /** The body callback hands off a raw `href` when it is non-empty and the
      host `getDomain` finds in it is a platform host. */
  predicate Claimable(platforms: seq<Bytes>, href: Bytes) {
    href != [] && PlatformHost(platforms, GetDomain(href))
  }

  /** A string in which no `http://` or `https://` occurs (a relative or
      protocol-relative reference) is never handed off. */
  lemma NoSchemeNoHandOff(platforms: seq<Bytes>, href: Bytes)
    requires forall j | 0 <= j < |platforms| :: platforms[j] != []
    requires forall i :: !UrlAt(href, i)
    ensures !Claimable(platforms, href)
  {
    assert GetDomain(href) == [];
    forall j | 0 <= j < |platforms| ensures !IsSubstring(platforms[j], []) {
      assert |platforms[j]| > 0;
    }
  }


  // ---------------------------------------------------------------------
  // The bookkeeping of the crawl is stated for any pair of tests:
  // `followable` stands for the link rule's test after the claim and
  // `claimable` for the body rule's. The collector below fixes them to
  // `Followable(startDomain, ·)` and `Claimable(platforms, ·)`.

  /** The hrefs the body callback hands off for a page with `anchors`,
      in order, when the claims before it were `claimed`: each claimable
      href that nobody claimed before, once. */
  function HandOffs(claimable: Bytes -> bool, claimed: set<Bytes>, anchors: seq<Anchor>): (r: seq<Bytes>)
    ensures Distinct(r)
    ensures forall i | 0 <= i < |r| :: claimable(r[i]) && r[i] !in claimed
    decreases |anchors|
  {
    if anchors == [] then []
    else
      var init := HandOffs(claimable, claimed, anchors[..|anchors| - 1]);
      var h := anchors[|anchors| - 1].href;
      assert forall k | 0 <= k < |anchors| - 1 :: anchors[..|anchors| - 1][k] == anchors[k];
      if claimable(h) && h !in claimed && h !in init then init + [h] else init
  }

  /** Every claimable href of the page was claimed before or is handed off
      now. */
  lemma {:induction false} HandOffsComplete(claimable: Bytes -> bool, claimed: set<Bytes>, anchors: seq<Anchor>)
    ensures forall k | 0 <= k < |anchors| && claimable(anchors[k].href) ::
      anchors[k].href in claimed || anchors[k].href in HandOffs(claimable, claimed, anchors)
    decreases |anchors|
  {
    if anchors != [] {
      var init := anchors[..|anchors| - 1];
      var r0 := HandOffs(claimable, claimed, init);
      var r := HandOffs(claimable, claimed, anchors);
      var h := anchors[|anchors| - 1].href;
      HandOffsComplete(claimable, claimed, init);
      assert r == if claimable(h) && h !in claimed && h !in r0 then r0 + [h] else r0;
      assert forall x | x in r0 :: x in r;
      forall k | 0 <= k < |anchors| && claimable(anchors[k].href)
        ensures anchors[k].href in claimed || anchors[k].href in r
      {
        if k < |init| {
          assert init[k] == anchors[k];
        } else {
          assert anchors[k].href == h;
        }
      }
    }
  }

  /** Every handed-off string is the raw href of one of the page's anchors. */
  lemma {:induction false} HandOffsFromAnchors(claimable: Bytes -> bool, claimed: set<Bytes>, anchors: seq<Anchor>)
    ensures forall i | 0 <= i < |HandOffs(claimable, claimed, anchors)| ::
      exists k | 0 <= k < |anchors| :: anchors[k].href == HandOffs(claimable, claimed, anchors)[i]
    decreases |anchors|
  {
    if anchors != [] {
      var init := anchors[..|anchors| - 1];
      var r0 := HandOffs(claimable, claimed, init);
      var r := HandOffs(claimable, claimed, anchors);
      HandOffsFromAnchors(claimable, claimed, init);
      forall i | 0 <= i < |r| ensures exists k | 0 <= k < |anchors| :: anchors[k].href == r[i] {
        if i < |r0| {
          var k :| 0 <= k < |init| && init[k].href == r0[i];
          assert anchors[k] == init[k] && r[i] == r0[i];
        } else {
          assert anchors[|anchors| - 1].href == r[i];
        }
      }
    } else {
      assert HandOffs(claimable, claimed, anchors) == [];
    }
  }

  /** The hand-offs of one more anchor. */
  lemma HandOffsStep(claimable: Bytes -> bool, claimed: set<Bytes>, anchors: seq<Anchor>, i: int)
    requires 0 <= i < |anchors|
    ensures var init := HandOffs(claimable, claimed, anchors[..i]);
      var h := anchors[i].href;
      HandOffs(claimable, claimed, anchors[..i + 1])
        == if claimable(h) && h !in claimed && h !in init then init + [h] else init
  {
    assert anchors[..i + 1][..i] == anchors[..i];
  }

  /** The body callback has handed off the first `n` anchors of a page:
      the channel and the claims grew by their hand-offs. */
  ghost predicate HandedOffSoFar(claimable: Bytes -> bool, v0: set<Bytes>, h0: seq<Bytes>, anchors: seq<Anchor>, n: int,
                                 visited: set<Bytes>, handedOff: seq<Bytes>)
    requires 0 <= n <= |anchors|
  {
    && handedOff == h0 + HandOffs(claimable, v0, anchors[..n])
    && (forall x :: x in visited <==> x in v0 || x in HandOffs(claimable, v0, anchors[..n]))
  }

  /** Handling anchor `n` (skipping an empty href, otherwise claiming a
      claimable one and sending it if it was unclaimed) hands off what
      `HandOffs` adds for it. */
  lemma HandOffAdvances(claimable: Bytes -> bool, v0: set<Bytes>, h0: seq<Bytes>, anchors: seq<Anchor>, n: int,
                        v: set<Bytes>, h: seq<Bytes>, v': set<Bytes>, h': seq<Bytes>)
    requires 0 <= n < |anchors| && !claimable([])
    requires HandedOffSoFar(claimable, v0, h0, anchors, n, v, h)
    requires var href := anchors[n].href;
      if href == [] then v' == v && h' == h
      else && v' == (if claimable(href) then v + {href} else v)
           && h' == (if claimable(href) && href !in v then h + [href] else h)
    ensures HandedOffSoFar(claimable, v0, h0, anchors, n + 1, v', h')
  {
    HandOffsStep(claimable, v0, anchors, n);
  }

  /** The shared claims: no empty string, each claimed either by the link
      callback or by a hand-off, and every hand-off once and claimable. */
  ghost predicate ClaimsValid(claimable: Bytes -> bool, visited: set<Bytes>, linkClaims: set<Bytes>, handedOff: seq<Bytes>) {
    && (forall x | x in visited :: x != [])
    && (forall x :: x in visited <==> x in linkClaims || x in handedOff)
    && (forall x | x in linkClaims :: x !in handedOff)
    && Distinct(handedOff)
    && (forall i | 0 <= i < |handedOff| :: claimable(handedOff[i]))
  }

  /** A successful hand-off of an unclaimed, claimable href. */
  lemma HandOffKeepsClaims(claimable: Bytes -> bool, visited: set<Bytes>, linkClaims: set<Bytes>, handedOff: seq<Bytes>, href: Bytes)
    requires ClaimsValid(claimable, visited, linkClaims, handedOff)
    requires href != [] && claimable(href) && href !in visited
    ensures ClaimsValid(claimable, visited + {href}, linkClaims, handedOff + [href])
  {
    var h := handedOff + [href];
    forall i, j | 0 <= i < j < |h| ensures h[i] != h[j] {
      if j == |handedOff| {
        assert h[i] == handedOff[i] && handedOff[i] in visited;
      }
    }
  }

  /** The state the callbacks share: the `visited` map, the `result`
      slice and everything sent on the `externalLinks` channel, in order. */
  class EventCollector {
    const startDomain: Bytes
    const variant: CleanVariant
    /** `platformRegexes`. */
    const platforms: seq<Bytes>
    /** The link rule's test and the body rule's test as values, in which
        the invariants of the crawl are stated. */
    ghost const followable: Bytes -> bool
    ghost const claimable: Bytes -> bool
    var visited: set<Bytes>
    var result: seq<ScrapedPage>
    var handedOff: seq<Bytes>
    /** The strings the link callback claimed; every other claim is a
        hand-off. */
    ghost var linkClaims: set<Bytes>

    ghost predicate Valid()
      reads this
    {
      ClaimsValid(claimable, visited, linkClaims, handedOff)
    }

    /** The two tests are the crawler's: same host and an event keyword,
        and a platform host. */
    ghost predicate TestsHold() {
      && (forall x :: FollowTest(x))
      && (forall x :: ClaimTest(x))
    }

    ghost predicate FollowTest(x: Bytes) {
      followable(x) <==> Followable(startDomain, x)
    }

    ghost predicate ClaimTest(x: Bytes) {
      claimable(x) <==> Claimable(platforms, x)
    }

    constructor (startDomain: Bytes, variant: CleanVariant)
      ensures this.startDomain == startDomain && this.variant == variant && platforms == PlatformDomains
      ensures visited == {} && result == [] && handedOff == [] && linkClaims == {}
      ensures Valid() && TestsHold()
    {
      this.startDomain := startDomain;
      this.variant := variant;
      platforms := PlatformDomains;
      followable := x => Followable(startDomain, x);
      claimable := x => Claimable(PlatformDomains, x);
      visited := {};
      result := [];
      handedOff := [];
      linkClaims := {};
    }

    /** The loop over the platform patterns for one non-empty `href`: the
        first matching pattern claims it, and the claim succeeds, sending it
        on the channel, only if nobody claimed it before. */
    method HandOff(href: Bytes) returns (pushed: bool)
      requires Valid() && TestsHold() && href != []
      modifies this`visited, this`handedOff
      ensures Valid()
      ensures pushed <==> claimable(href) && href !in old(visited)
      ensures visited == if claimable(href) then old(visited) + {href} else old(visited)
      ensures handedOff == if pushed then old(handedOff) + [href] else old(handedOff)
    {
      var host := GetDomain(href);
      pushed := false;
      ghost var matched := false;
      var j := 0;
      while j < |platforms|
        invariant 0 <= j <= |platforms|
        invariant matched == AnyKeywordIn(host, platforms[..j])
        invariant pushed <==> matched && href !in old(visited)
        invariant visited == if matched then old(visited) + {href} else old(visited)
        invariant handedOff == if pushed then old(handedOff) + [href] else old(handedOff)
      {
        AnyKeywordInStep(host, platforms, j);
        if Contains(host, platforms[j]) {
          if href !in visited {
            assert visited == old(visited);
            visited := visited + {href};
            handedOff := handedOff + [href];
            pushed := true;
          }
          matched := true;
        }
        j := j + 1;
      }
      assert platforms[..j] == platforms;
      assert ClaimTest(href);
      if pushed {
        HandOffKeepsClaims(claimable, old(visited), linkClaims, old(handedOff), href);
      }
    }

    /** The `body` callback of the site collector: record the page as
        internal, then hand off its platform hrefs. */
    method OnBody(url: Bytes, page: Page)
      requires Valid() && TestsHold()
      modifies this`result, this`visited, this`handedOff
      ensures Valid()
      ensures result == old(result) + [ScrapedPage(url, BodyText(variant, EventMinLen, EventMaxLen, page.text), false)]
      ensures handedOff == old(handedOff) + HandOffs(claimable, old(visited), page.anchors)
      ensures forall x :: x in visited <==> x in old(visited) || x in HandOffs(claimable, old(visited), page.anchors)
    {
      var text := CleanAndTrim(variant, StripHtml(page.text), EventMinLen, EventMaxLen);
      result := result + [ScrapedPage(url, text, false)];
      HandOffHrefs(page.anchors);
    }

    /** The loop of the body callback over the page's `a[href]` elements:
        an empty href is skipped, any other goes through `HandOff`. */
    method HandOffHrefs(anchors: seq<Anchor>)
      requires Valid() && TestsHold()
      modifies this`visited, this`handedOff
      ensures Valid()
      ensures handedOff == old(handedOff) + HandOffs(claimable, old(visited), anchors)
      ensures forall x :: x in visited <==> x in old(visited) || x in HandOffs(claimable, old(visited), anchors)
    {
      assert ClaimTest([]);
      var i := 0;
      while i < |anchors|
        invariant 0 <= i <= |anchors|
        invariant Valid()
        invariant HandedOffSoFar(claimable, old(visited), old(handedOff), anchors, i, visited, handedOff)
      {
        var href := anchors[i].href;
        ghost var v, h := visited, handedOff;
        if href != [] {
          var pushed := HandOff(href);
        }
        HandOffAdvances(claimable, old(visited), old(handedOff), anchors, i, v, h, visited, handedOff);
        i := i + 1;
      }
      assert anchors[..i] == anchors;
    }

    /** The `a[href]` callback of the site collector on the resolved link:
        claim it first, then report whether it is handed to `Visit`. */
    method OnLink(link: Bytes) returns (follow: bool)
      requires Valid() && TestsHold()
      modifies this`visited, this`linkClaims
      ensures Valid()
      ensures follow <==> link != [] && link !in old(visited) && followable(link)
      ensures visited == if link != [] then old(visited) + {link} else old(visited)
      ensures linkClaims == if link != [] && link !in old(visited) then old(linkClaims) + {link} else old(linkClaims)
    {
      if link == [] || link in visited {
        return false;
      }
      visited := visited + {link};
      linkClaims := linkClaims + {link};
      follow := GetDomain(link) == startDomain && MatchEventKeyword(link);
      assert FollowTest(link);
    }

    /** The `body` callback of an external collector: record the page as
        external. */
    method OnExternalBody(url: Bytes, text: Bytes)
      modifies this`result
      ensures result == old(result) + [ScrapedPage(url, BodyText(variant, EventMinLen, EventMaxLen, text), true)]
    {
      var clean := CleanAndTrim(variant, StripHtml(text), EventMinLen, EventMaxLen);
      result := result + [ScrapedPage(url, clean, true)];
    }
  }

  // ---------------------------------------------------------------------
  // The two phases, with goroutines and the channel made sequential: the
  // site collector runs to completion, then the hand-offs are fetched in
  // the order they were sent.

  /** The records of `ps`, flagged internal or external. */
  function Tagged(ps: seq<PageData>, external: bool): (r: seq<ScrapedPage>)
    ensures |r| == |ps|
    ensures forall i | 0 <= i < |ps| :: r[i] == ScrapedPage(ps[i].url, ps[i].text, external)
  {
    seq(|ps|, i requires 0 <= i < |ps| => ScrapedPage(ps[i].url, ps[i].text, external))
  }

  lemma TaggedAppend(ps: seq<PageData>, p: PageData, external: bool)
    ensures Tagged(ps + [p], external) == Tagged(ps, external) + [ScrapedPage(p.url, p.text, external)]
  {
  }

  /** What the site collector admitted (`order`: fetched, then pending):
      each once, the start URL first, every other one claimed by the link
      callback and followable, and every followable link claim admitted. */
  ghost predicate EventAdmitted(followable: Bytes -> bool, start: Bytes, linkClaims: set<Bytes>, seen: set<Bytes>, order: seq<Bytes>) {
    && |order| > 0 && order[0] == start
    && Distinct(order)
    && (forall x :: x in seen <==> x in order)
    && (forall i | 0 <= i < |order| :: order[i] == start || (order[i] in linkClaims && followable(order[i])))
    && (forall x | x in linkClaims && followable(x) :: x in seen)
  }

  /** The first `n` resolved links of page `u` (if it fetches) are claimed
      or empty. */
  ghost predicate LinksHandled(site: Site, visited: set<Bytes>, u: Bytes, n: int) {
    u in site ==> forall k | 0 <= k < n && k < |site[u].anchors| :: site[u].anchors[k].abs == [] || site[u].anchors[k].abs in visited
  }

  /** Every claimable raw href of page `u` (if it fetches) is claimed. */
  ghost predicate HrefsHandled(claimable: Bytes -> bool, site: Site, visited: set<Bytes>, u: Bytes) {
    u in site ==> forall k | 0 <= k < |site[u].anchors| :: !claimable(site[u].anchors[k].href) || site[u].anchors[k].href in visited
  }

  ghost predicate PageDone(claimable: Bytes -> bool, site: Site, visited: set<Bytes>, u: Bytes) {
    && (u in site ==> LinksHandled(site, visited, u, |site[u].anchors|))
    && HrefsHandled(claimable, site, visited, u)
  }

  /** Every link claim is the resolved link of an anchor on a fetched page. */
  ghost predicate LinkClaimsReached(site: Site, fetched: seq<Bytes>, linkClaims: set<Bytes>) {
    forall x | x in linkClaims :: exists m, k | 0 <= m < |fetched| && fetched[m] in site && 0 <= k < |site[fetched[m]].anchors| ::
      site[fetched[m]].anchors[k].abs == x
  }

  /** Every hand-off is the raw href of an anchor on a fetched page. */
  ghost predicate HandOffsReached(site: Site, fetched: seq<Bytes>, handedOff: seq<Bytes>) {
    forall h | h in handedOff :: exists m, k | 0 <= m < |fetched| && fetched[m] in site && 0 <= k < |site[fetched[m]].anchors| ::
      site[fetched[m]].anchors[k].href == h
  }

  /** The state of the first phase between two fetches. */
  ghost predicate EventCrawling(c: EventCollector, site: Site, start: Bytes, seen: set<Bytes>, pending: seq<Bytes>, fetched: seq<Bytes>)
    reads c
  {
    && c.Valid()
    && EventAdmitted(c.followable, start, c.linkClaims, seen, fetched + pending)
    && c.result == Tagged(Records(c.variant, EventMinLen, EventMaxLen, site, fetched), false)
    && seen <= Strings(site) + {start}
    && (forall m | 0 <= m < |fetched| :: PageDone(c.claimable, site, c.visited, fetched[m]))
    && Linked(site, fetched, fetched + pending)
    && LinkClaimsReached(site, fetched, c.linkClaims)
    && HandOffsReached(site, fetched, c.handedOff)
  }

  lemma EventCrawlingStart(c: EventCollector, site: Site, start: Bytes)
    requires c.Valid()
    requires c.visited == {} && c.linkClaims == {} && c.handedOff == [] && c.result == []
    ensures EventCrawling(c, site, start, {start}, [start], [])
  {
    assert [] + [start] == [start];
  }

  /** Page `u` is fetched: claims already handled stay handled, and the
      admitted URLs and claims already reached stay reached. */
  lemma FetchedGrows(claimable: Bytes -> bool, site: Site, v0: set<Bytes>, v1: set<Bytes>,
                     fetched: seq<Bytes>, u: Bytes, order: seq<Bytes>, linkClaims: set<Bytes>, handedOff: seq<Bytes>)
    requires v0 <= v1
    requires Linked(site, fetched, order)
    requires forall m | 0 <= m < |fetched| :: PageDone(claimable, site, v0, fetched[m])
    requires LinkClaimsReached(site, fetched, linkClaims)
    requires HandOffsReached(site, fetched, handedOff)
    ensures forall m | 0 <= m < |fetched| :: PageDone(claimable, site, v1, fetched[m])
    ensures Linked(site, fetched + [u], order)
    ensures LinkClaimsReached(site, fetched + [u], linkClaims)
    ensures HandOffsReached(site, fetched + [u], handedOff)
  {
    LinkedExtend(site, fetched, u, order);
    var f := fetched + [u];
    forall m | 0 <= m < |fetched| ensures PageDone(claimable, site, v1, fetched[m]) {
      assert PageDone(claimable, site, v0, fetched[m]);
    }
    forall x | x in linkClaims
      ensures exists m, k | 0 <= m < |f| && f[m] in site && 0 <= k < |site[f[m]].anchors| :: site[f[m]].anchors[k].abs == x
    {
      var m, k :| 0 <= m < |fetched| && fetched[m] in site && 0 <= k < |site[fetched[m]].anchors| && site[fetched[m]].anchors[k].abs == x;
      assert f[m] == fetched[m];
    }
    forall h | h in handedOff
      ensures exists m, k | 0 <= m < |f| && f[m] in site && 0 <= k < |site[f[m]].anchors| :: site[f[m]].anchors[k].href == h
    {
      var m, k :| 0 <= m < |fetched| && fetched[m] in site && 0 <= k < |site[fetched[m]].anchors| && site[fetched[m]].anchors[k].href == h;
      assert f[m] == fetched[m];
    }
  }

  /** After the body callback of the last fetched page `u`: its claimable
      hrefs are claimed, and its hand-offs are reached. */
  lemma BodyDone(claimable: Bytes -> bool, site: Site, v0: set<Bytes>, v1: set<Bytes>,
                 fetched: seq<Bytes>, h0: seq<Bytes>, h1: seq<Bytes>)
    requires |fetched| > 0 && fetched[|fetched| - 1] in site
    requires var page := site[fetched[|fetched| - 1]];
      && h1 == h0 + HandOffs(claimable, v0, page.anchors)
      && (forall x :: x in v1 <==> x in v0 || x in HandOffs(claimable, v0, page.anchors))
    requires HandOffsReached(site, fetched, h0)
    ensures HrefsHandled(claimable, site, v1, fetched[|fetched| - 1])
    ensures HandOffsReached(site, fetched, h1)
  {
    var u := fetched[|fetched| - 1];
    var hs := HandOffs(claimable, v0, site[u].anchors);
    HandOffsComplete(claimable, v0, site[u].anchors);
    HandOffsFromAnchors(claimable, v0, site[u].anchors);
    forall h | h in h1
      ensures exists m, k | 0 <= m < |fetched| && fetched[m] in site && 0 <= k < |site[fetched[m]].anchors| ::
        site[fetched[m]].anchors[k].href == h
    {
      if h !in h0 {
        var i :| 0 <= i < |hs| && hs[i] == h;
        var k :| 0 <= k < |site[u].anchors| && site[u].anchors[k].href == hs[i];
        assert site[fetched[|fetched| - 1]].anchors[k].href == h;
      }
    }
  }

  /** The site collector admits a followable link it has not requested. */
  lemma EventAdmitLink(followable: Bytes -> bool, start: Bytes, lc0: set<Bytes>, seen: set<Bytes>, order: seq<Bytes>, link: Bytes)
    requires EventAdmitted(followable, start, lc0, seen, order)
    requires followable(link) && link !in seen
    ensures EventAdmitted(followable, start, lc0 + {link}, seen + {link}, order + [link])
  {
    var o := order + [link];
    forall i, j | 0 <= i < j < |o| ensures o[i] != o[j] {
      if j == |order| {
        assert o[i] == order[i] && order[i] in seen;
      }
    }
  }

  /** A link claim that is not admitted: not followable, or requested
      before. */
  lemma EventKeepLink(followable: Bytes -> bool, start: Bytes, lc0: set<Bytes>, lc1: set<Bytes>, seen: set<Bytes>,
                      order: seq<Bytes>, link: Bytes)
    requires EventAdmitted(followable, start, lc0, seen, order)
    requires lc1 == lc0 || (lc1 == lc0 + {link} && (!followable(link) || link in seen))
    ensures EventAdmitted(followable, start, lc1, seen, order)
  {
  }

  /** The link callback on anchor `i` of page `u`, which claims its resolved
      link unless it is empty. */
  lemma EventLinkStep(claimable: Bytes -> bool, site: Site, fetched: seq<Bytes>, i: int,
                      v0: set<Bytes>, v1: set<Bytes>, lc0: set<Bytes>, lc1: set<Bytes>)
    requires |fetched| > 0 && fetched[|fetched| - 1] in site
    requires 0 <= i < |site[fetched[|fetched| - 1]].anchors|
    requires var link := site[fetched[|fetched| - 1]].anchors[i].abs;
      && v1 == (if link != [] then v0 + {link} else v0)
      && (lc1 == lc0 || lc1 == lc0 + {link})
    requires forall m | 0 <= m < |fetched| - 1 :: PageDone(claimable, site, v0, fetched[m])
    requires HrefsHandled(claimable, site, v0, fetched[|fetched| - 1])
    requires LinksHandled(site, v0, fetched[|fetched| - 1], i)
    requires LinkClaimsReached(site, fetched, lc0)
    ensures forall m | 0 <= m < |fetched| - 1 :: PageDone(claimable, site, v1, fetched[m])
    ensures HrefsHandled(claimable, site, v1, fetched[|fetched| - 1])
    ensures LinksHandled(site, v1, fetched[|fetched| - 1], i + 1)
    ensures LinkClaimsReached(site, fetched, lc1)
  {
    forall m | 0 <= m < |fetched| - 1 ensures PageDone(claimable, site, v1, fetched[m]) {
      assert PageDone(claimable, site, v0, fetched[m]);
    }
  }

  /** The link callback over the anchors of the fetched page `u` (the last
      of `fetched`), with the site collector admitting what it follows. */
  method FollowEventAnchors(c: EventCollector, site: Site, start: Bytes, u: Bytes,
                            seen: set<Bytes>, pending: seq<Bytes>, ghost fetched: seq<Bytes>)
    returns (seen': set<Bytes>, pending': seq<Bytes>)
    requires c.Valid() && c.TestsHold()
    requires u in site && |fetched| > 0 && fetched[|fetched| - 1] == u
    requires EventAdmitted(c.followable, start, c.linkClaims, seen, fetched + pending)
    requires seen <= Strings(site) + {start}
    requires forall m | 0 <= m < |fetched| - 1 :: PageDone(c.claimable, site, c.visited, fetched[m])
    requires HrefsHandled(c.claimable, site, c.visited, u)
    requires Linked(site, fetched, fetched + pending)
    requires LinkClaimsReached(site, fetched, c.linkClaims)
    modifies c`visited, c`linkClaims
    ensures c.Valid()
    ensures EventAdmitted(c.followable, start, c.linkClaims, seen', fetched + pending')
    ensures seen <= seen' <= Strings(site) + {start}
    ensures seen' == seen ==> pending' == pending
    ensures forall m | 0 <= m < |fetched| :: PageDone(c.claimable, site, c.visited, fetched[m])
    ensures Linked(site, fetched, fetched + pending')
    ensures LinkClaimsReached(site, fetched, c.linkClaims)
  {
    var page := site[u];
    seen', pending' := seen, pending;
    var i := 0;
    while i < |page.anchors|
      invariant 0 <= i <= |page.anchors|
      invariant c.Valid()
      invariant EventAdmitted(c.followable, start, c.linkClaims, seen', fetched + pending')
      invariant seen <= seen' <= Strings(site) + {start}
      invariant seen' == seen ==> pending' == pending
      invariant forall m | 0 <= m < |fetched| - 1 :: PageDone(c.claimable, site, c.visited, fetched[m])
      invariant HrefsHandled(c.claimable, site, c.visited, u)
      invariant LinksHandled(site, c.visited, u, i)
      invariant Linked(site, fetched, fetched + pending')
      invariant LinkClaimsReached(site, fetched, c.linkClaims)
    {
      var link := page.anchors[i].abs;
      ghost var v0, lc0 := c.visited, c.linkClaims;
      ghost var order := fetched + pending';
      var follow := c.OnLink(link);
      EventLinkStep(c.claimable, site, fetched, i, v0, c.visited, lc0, c.linkClaims);
      if follow && link !in seen' {
        AnchorInStrings(site, u, i);
        EventAdmitLink(c.followable, start, lc0, seen', order, link);
        LinkedAdmit(site, fetched, order, i);
        AppendTail(fetched, pending', link);
        seen' := seen' + {link};
        pending' := pending' + [link];
      } else {
        EventKeepLink(c.followable, start, lc0, c.linkClaims, seen', order, link);
      }
      i := i + 1;
    }
  }

  /** The site collector fetches the next admitted URL; when it fetches,
      the body callback runs, then the link callback on each anchor. */
  method FetchNextEvent(c: EventCollector, site: Site, start: Bytes, seen: set<Bytes>, pending: seq<Bytes>, ghost fetched: seq<Bytes>)
    returns (seen': set<Bytes>, pending': seq<Bytes>, ghost fetched': seq<Bytes>)
    requires pending != [] && c.TestsHold() && EventCrawling(c, site, start, seen, pending, fetched)
    modifies c`visited, c`linkClaims, c`handedOff, c`result
    ensures EventCrawling(c, site, start, seen', pending', fetched')
    ensures seen <= seen'
    ensures seen' == seen ==> |pending'| < |pending|
  {
    var u := pending[0];
    ghost var v0, h0 := c.visited, c.handedOff;
    MoveHead(fetched, pending);
    RecordsSnoc(c.variant, EventMinLen, EventMaxLen, site, fetched, u);
    fetched' := fetched + [u];
    pending' := pending[1..];
    seen' := seen;
    if u in site {
      var page := site[u];
      ghost var r0 := c.result;
      c.OnBody(u, page);
      TaggedAppend(Records(c.variant, EventMinLen, EventMaxLen, site, fetched),
                   PageData(u, BodyText(c.variant, EventMinLen, EventMaxLen, page.text)), false);
      FetchedGrows(c.claimable, site, v0, c.visited, fetched, u, fetched + pending, c.linkClaims, h0);
      BodyDone(c.claimable, site, v0, c.visited, fetched', h0, c.handedOff);
      seen', pending' := FollowEventAnchors(c, site, start, u, seen', pending', fetched');
    } else {
      FetchedGrows(c.claimable, site, v0, v0, fetched, u, fetched + pending, c.linkClaims, h0);
    }
  }

  /** No event keyword occurs in the empty string. */
  lemma NoEventKeywordInEmpty()
    ensures !MatchEventKeyword([])
  {
    forall j | 0 <= j < |EventStems| ensures !IsSubstring(EventStems[j], []) {
      assert |EventStems[j]| > 0;
    }
  }

  /** The facts the first phase ends with. */
  ghost predicate EventFinished(followable: Bytes -> bool, claimable: Bytes -> bool, site: Site, start: Bytes, visited: set<Bytes>,
                                linkClaims: set<Bytes>, handedOff: seq<Bytes>, seen: set<Bytes>, fetched: seq<Bytes>) {
    && ClaimsValid(claimable, visited, linkClaims, handedOff)
    && EventAdmitted(followable, start, linkClaims, seen, fetched)
    && (forall m | 0 <= m < |fetched| :: PageDone(claimable, site, visited, fetched[m]))
    && Linked(site, fetched, fetched)
    && LinkClaimsReached(site, fetched, linkClaims)
    && HandOffsReached(site, fetched, handedOff)
  }

  lemma EventCrawlingDone(c: EventCollector, site: Site, start: Bytes, seen: set<Bytes>, fetched: seq<Bytes>)
    requires EventCrawling(c, site, start, seen, [], fetched)
    ensures EventFinished(c.followable, c.claimable, site, start, c.visited, c.linkClaims, c.handedOff, seen, fetched)
    ensures c.result == Tagged(Records(c.variant, EventMinLen, EventMaxLen, site, fetched), false)
  {
    assert fetched + [] == fetched;
  }

  /** The result: the internal records in fetch order, then the external
      records in hand-off order. */
  ghost function Outcome(variant: CleanVariant, site: Site, fetched: seq<Bytes>, handedOff: seq<Bytes>): seq<ScrapedPage> {
    Tagged(Records(variant, EventMinLen, EventMaxLen, site, fetched), false)
    + Tagged(Records(variant, EventMinLen, EventMaxLen, site, handedOff), true)
  }

  /** The records of `ps` as internal, then those of `qs` as external. */
  lemma TaggedPairIndex(ps: seq<PageData>, qs: seq<PageData>)
    ensures var r := Tagged(ps, false) + Tagged(qs, true);
      && |r| == |ps| + |qs|
      && (forall i | 0 <= i < |ps| :: r[i] == ScrapedPage(ps[i].url, ps[i].text, false))
      && (forall i | |ps| <= i < |r| :: r[i] == ScrapedPage(qs[i - |ps|].url, qs[i - |ps|].text, true))
  {
    var a, b := Tagged(ps, false), Tagged(qs, true);
    assert forall i | |ps| <= i < |a + b| :: (a + b)[i] == b[i - |ps|];
  }

  /** Where each record of the outcome comes from. */
  lemma OutcomeIndex(variant: CleanVariant, site: Site, fetched: seq<Bytes>, handedOff: seq<Bytes>)
    ensures var ps := Records(variant, EventMinLen, EventMaxLen, site, fetched);
      var qs := Records(variant, EventMinLen, EventMaxLen, site, handedOff);
      var r := Outcome(variant, site, fetched, handedOff);
      && |r| == |ps| + |qs|
      && (forall i | 0 <= i < |ps| :: r[i] == ScrapedPage(ps[i].url, ps[i].text, false))
      && (forall i | |ps| <= i < |r| :: r[i] == ScrapedPage(qs[i - |ps|].url, qs[i - |ps|].text, true))
  {
    TaggedPairIndex(Records(variant, EventMinLen, EventMaxLen, site, fetched),
                    Records(variant, EventMinLen, EventMaxLen, site, handedOff));
  }

  /** Every record carries the cleaned text of a page that fetches; an
      internal one is the start page or followable, an external one
      claimable. */
  lemma EventOutcomeSound(followable: Bytes -> bool, claimable: Bytes -> bool, variant: CleanVariant, site: Site, start: Bytes,
                          visited: set<Bytes>, linkClaims: set<Bytes>, handedOff: seq<Bytes>, seen: set<Bytes>, fetched: seq<Bytes>)
    requires EventFinished(followable, claimable, site, start, visited, linkClaims, handedOff, seen, fetched)
    ensures var r := Outcome(variant, site, fetched, handedOff);
      && (forall i | 0 <= i < |r| ::
           r[i].url in site && r[i].text == BodyText(variant, EventMinLen, EventMaxLen, site[r[i].url].text))
      && (forall i | 0 <= i < |r| && !r[i].external :: r[i].url == start || followable(r[i].url))
      && (forall i | 0 <= i < |r| && r[i].external :: claimable(r[i].url))
  {
    var ps := Records(variant, EventMinLen, EventMaxLen, site, fetched);
    var qs := Records(variant, EventMinLen, EventMaxLen, site, handedOff);
    var r := Outcome(variant, site, fetched, handedOff);
    OutcomeIndex(variant, site, fetched, handedOff);
    RecordsSound(variant, EventMinLen, EventMaxLen, site, fetched);
    RecordsSound(variant, EventMinLen, EventMaxLen, site, handedOff);
    forall i | 0 <= i < |r| && !r[i].external
      ensures r[i].url == start || followable(r[i].url)
    {
      var n :| 0 <= n < |fetched| && fetched[n] == ps[i].url;
    }
    forall i | 0 <= i < |r| && r[i].external
      ensures claimable(r[i].url)
    {
      var n :| 0 <= n < |handedOff| && handedOff[n] == qs[i - |ps|].url;
    }
  }

  /** No URL but the start URL is recorded twice, internally or
      externally, when the two fetch lists are each duplicate-free and share
      at most the start URL. */
  lemma EventOutcomeDistinct(variant: CleanVariant, site: Site, start: Bytes, fetched: seq<Bytes>, handedOff: seq<Bytes>)
    requires Distinct(fetched) && Distinct(handedOff)
    requires forall x | x in fetched && x in handedOff :: x == start
    ensures var r := Outcome(variant, site, fetched, handedOff);
      forall i, j | 0 <= i < j < |r| && r[i].url == r[j].url :: r[i].url == start
  {
    var ps := Records(variant, EventMinLen, EventMaxLen, site, fetched);
    var qs := Records(variant, EventMinLen, EventMaxLen, site, handedOff);
    var r := Outcome(variant, site, fetched, handedOff);
    OutcomeIndex(variant, site, fetched, handedOff);
    RecordUrls(variant, EventMinLen, EventMaxLen, site, fetched);
    RecordUrls(variant, EventMinLen, EventMaxLen, site, handedOff);
    assert DistinctExcept(fetched, {});
    assert DistinctExcept(handedOff, {});
    RecordsDistinct(variant, EventMinLen, EventMaxLen, site, fetched, {});
    RecordsDistinct(variant, EventMinLen, EventMaxLen, site, handedOff, {});
    forall i, j | 0 <= i < j < |ps| ensures r[i].url != r[j].url {
      assert r[i].url == ps[i].url && r[j].url == ps[j].url;
    }
    forall i, j | |ps| <= i < j < |r| ensures r[i].url != r[j].url {
      assert r[i].url == qs[i - |ps|].url && r[j].url == qs[j - |ps|].url;
    }
    forall i, j | 0 <= i < |ps| <= j < |r| && r[i].url == r[j].url ensures r[i].url == start {
      assert ps[i].url in fetched && qs[j - |ps|].url in handedOff;
    }
  }

  /** The two fetch lists of a finished first phase. */
  lemma FinishedLists(followable: Bytes -> bool, claimable: Bytes -> bool, site: Site, start: Bytes, visited: set<Bytes>,
                      linkClaims: set<Bytes>, handedOff: seq<Bytes>, seen: set<Bytes>, fetched: seq<Bytes>)
    requires EventFinished(followable, claimable, site, start, visited, linkClaims, handedOff, seen, fetched)
    ensures Distinct(fetched) && Distinct(handedOff)
    ensures forall x | x in fetched && x in handedOff :: x == start
  {
    forall x | x in fetched && x in handedOff ensures x == start {
      var n :| 0 <= n < |fetched| && fetched[n] == x;
    }
  }

  /** A fetched URL that fetches has an internal record. */
  lemma RecordedInternal(variant: CleanVariant, site: Site, fetched: seq<Bytes>, handedOff: seq<Bytes>, x: Bytes)
    requires x in fetched && x in site
    ensures var r := Outcome(variant, site, fetched, handedOff);
      exists j | 0 <= j < |r| && !r[j].external :: r[j].url == x
  {
    OutcomeIndex(variant, site, fetched, handedOff);
    RecordsComplete(variant, EventMinLen, EventMaxLen, site, fetched, x);
  }

  /** A handed-off URL that fetches has an external record. */
  lemma RecordedExternal(variant: CleanVariant, site: Site, fetched: seq<Bytes>, handedOff: seq<Bytes>, x: Bytes)
    requires x in handedOff && x in site
    ensures var r := Outcome(variant, site, fetched, handedOff);
      exists j | 0 <= j < |r| && r[j].external :: r[j].url == x
  {
    var ps := Records(variant, EventMinLen, EventMaxLen, site, fetched);
    var qs := Records(variant, EventMinLen, EventMaxLen, site, handedOff);
    var r := Outcome(variant, site, fetched, handedOff);
    OutcomeIndex(variant, site, fetched, handedOff);
    RecordsComplete(variant, EventMinLen, EventMaxLen, site, handedOff, x);
    var n :| 0 <= n < |qs| && qs[n].url == x;
    assert r[|ps| + n].url == x && r[|ps| + n].external;
  }

  /** The start page is recorded when it fetches; every followable target
      of an internal page that fetches is recorded (the empty string is
      never followable); and every claimable raw href of an internal page
      that fetches is recorded, unless it was claimed first as the resolved
      link of some internal page's anchor and not followed. */
  lemma EventOutcomeClosed(followable: Bytes -> bool, claimable: Bytes -> bool, variant: CleanVariant, site: Site, start: Bytes,
                           visited: set<Bytes>, linkClaims: set<Bytes>, handedOff: seq<Bytes>, seen: set<Bytes>, fetched: seq<Bytes>)
    requires EventFinished(followable, claimable, site, start, visited, linkClaims, handedOff, seen, fetched)
    requires !followable([])
    ensures var r := Outcome(variant, site, fetched, handedOff);
      && (start in site ==> exists i | 0 <= i < |r| && !r[i].external :: r[i].url == start)
      && (forall i, k | 0 <= i < |r| && !r[i].external && r[i].url in site && 0 <= k < |site[r[i].url].anchors| ::
           var a := site[r[i].url].anchors[k].abs;
           followable(a) && a in site ==> exists j | 0 <= j < |r| :: r[j].url == a)
      && (forall i, k | 0 <= i < |r| && !r[i].external && r[i].url in site && 0 <= k < |site[r[i].url].anchors| ::
           var h := site[r[i].url].anchors[k].href;
           claimable(h) && h in site ==>
             (exists j | 0 <= j < |r| :: r[j].url == h)
             || (!followable(h)
                 && exists j, q | 0 <= j < |r| && !r[j].external && r[j].url in site && 0 <= q < |site[r[j].url].anchors| ::
                      site[r[j].url].anchors[q].abs == h))
  {
    var ps := Records(variant, EventMinLen, EventMaxLen, site, fetched);
    var r := Outcome(variant, site, fetched, handedOff);
    OutcomeIndex(variant, site, fetched, handedOff);
    RecordUrls(variant, EventMinLen, EventMaxLen, site, fetched);
    if start in site {
      RecordedInternal(variant, site, fetched, handedOff, start);
    }
    forall i, k | 0 <= i < |r| && !r[i].external && r[i].url in site && 0 <= k < |site[r[i].url].anchors|
      ensures var a := site[r[i].url].anchors[k].abs;
        followable(a) && a in site ==> exists j | 0 <= j < |r| :: r[j].url == a
    {
      var u := r[i].url;
      var a := site[u].anchors[k].abs;
      assert u == ps[i].url;
      var n :| 0 <= n < |fetched| && fetched[n] == u;
      assert PageDone(claimable, site, visited, fetched[n]);
      if followable(a) && a in site {
        assert a in visited;
        if a in linkClaims {
          RecordedInternal(variant, site, fetched, handedOff, a);
        } else {
          RecordedExternal(variant, site, fetched, handedOff, a);
        }
      }
    }
    forall i, k | 0 <= i < |r| && !r[i].external && r[i].url in site && 0 <= k < |site[r[i].url].anchors|
      ensures var h := site[r[i].url].anchors[k].href;
        claimable(h) && h in site ==>
          (exists j | 0 <= j < |r| :: r[j].url == h)
          || (!followable(h)
              && exists j, q | 0 <= j < |r| && !r[j].external && r[j].url in site && 0 <= q < |site[r[j].url].anchors| ::
                   site[r[j].url].anchors[q].abs == h)
    {
      var u := r[i].url;
      var h := site[u].anchors[k].href;
      assert u == ps[i].url;
      var n :| 0 <= n < |fetched| && fetched[n] == u;
      assert PageDone(claimable, site, visited, fetched[n]);
      if claimable(h) && h in site {
        assert h in visited;
        if h in handedOff {
          RecordedExternal(variant, site, fetched, handedOff, h);
        } else if followable(h) {
          RecordedInternal(variant, site, fetched, handedOff, h);
        } else {
          var m, q :| 0 <= m < |fetched| && fetched[m] in site && 0 <= q < |site[fetched[m]].anchors| &&
            site[fetched[m]].anchors[q].abs == h;
          RecordedInternal(variant, site, fetched, handedOff, fetched[m]);
          var j :| 0 <= j < |r| && !r[j].external && r[j].url == fetched[m];
          assert site[r[j].url].anchors[q].abs == h;
        }
      }
    }
  }

  /** Every internal record other than the start page's is the resolved
      link of an anchor on an internal page recorded before it. */
  lemma EventOutcomeReachedInternal(followable: Bytes -> bool, variant: CleanVariant, site: Site, start: Bytes,
                                    linkClaims: set<Bytes>, seen: set<Bytes>, fetched: seq<Bytes>, handedOff: seq<Bytes>)
    requires EventAdmitted(followable, start, linkClaims, seen, fetched)
    requires Linked(site, fetched, fetched)
    ensures var r := Outcome(variant, site, fetched, handedOff);
      forall i | 0 <= i < |r| && !r[i].external && r[i].url != start ::
        exists j, k | 0 <= j < i && !r[j].external && r[j].url in site && 0 <= k < |site[r[j].url].anchors| ::
          site[r[j].url].anchors[k].abs == r[i].url
  {
    var ps := Records(variant, EventMinLen, EventMaxLen, site, fetched);
    var r := Outcome(variant, site, fetched, handedOff);
    OutcomeIndex(variant, site, fetched, handedOff);
    RecordsLinked(variant, EventMinLen, EventMaxLen, site, fetched);
    forall i | 0 <= i < |r| && !r[i].external && r[i].url != start
      ensures exists j, k | 0 <= j < i && !r[j].external && r[j].url in site && 0 <= k < |site[r[j].url].anchors| ::
        site[r[j].url].anchors[k].abs == r[i].url
    {
      assert r[i].url == ps[i].url;
      var j, k :| 0 <= j < i && ps[j].url in site && 0 <= k < |site[ps[j].url].anchors| &&
        site[ps[j].url].anchors[k].abs == ps[i].url;
      assert r[j].url == ps[j].url && !r[j].external;
    }
  }

  /** Every external record is the raw href of an anchor on an internal
      page. */
  lemma EventOutcomeReachedExternal(variant: CleanVariant, site: Site, fetched: seq<Bytes>, handedOff: seq<Bytes>)
    requires HandOffsReached(site, fetched, handedOff)
    ensures var r := Outcome(variant, site, fetched, handedOff);
      forall i | 0 <= i < |r| && r[i].external ::
        exists j, k | 0 <= j < i && !r[j].external && r[j].url in site && 0 <= k < |site[r[j].url].anchors| ::
          site[r[j].url].anchors[k].href == r[i].url
  {
    var ps := Records(variant, EventMinLen, EventMaxLen, site, fetched);
    var qs := Records(variant, EventMinLen, EventMaxLen, site, handedOff);
    var r := Outcome(variant, site, fetched, handedOff);
    OutcomeIndex(variant, site, fetched, handedOff);
    RecordUrls(variant, EventMinLen, EventMaxLen, site, handedOff);
    forall i | 0 <= i < |r| && r[i].external
      ensures exists j, k | 0 <= j < i && !r[j].external && r[j].url in site && 0 <= k < |site[r[j].url].anchors| ::
        site[r[j].url].anchors[k].href == r[i].url
    {
      var x := r[i].url;
      assert x == qs[i - |ps|].url;
      var m, k :| 0 <= m < |fetched| && fetched[m] in site && 0 <= k < |site[fetched[m]].anchors| &&
        site[fetched[m]].anchors[k].href == x;
      RecordedInternal(variant, site, fetched, handedOff, fetched[m]);
      var j :| 0 <= j < |r| && !r[j].external && r[j].url == fetched[m];
      assert site[r[j].url].anchors[k].href == x;
    }
  }

  /** `EventCrawler(startURL)`: the site crawl from `start`, then the
      hand-offs fetched as external pages. Every record is a page that
      fetches, with its cleaned text; an internal record is the start page
      or followable, an external one a platform page; only the start URL
      can be recorded twice (once internally, once externally); the start
      page and every followable target of an internal page are recorded;
      every claimable raw href of an internal page is recorded unless a
      resolved link equal to it was claimed first and not followed; and
      every record but the start page's is linked from an internal record
      before it. */
  method EventCrawler(variant: CleanVariant, site: Site, start: Bytes) returns (r: seq<ScrapedPage>)
    ensures forall i | 0 <= i < |r| ::
      r[i].url in site && r[i].text == BodyText(variant, EventMinLen, EventMaxLen, site[r[i].url].text)
    ensures forall i | 0 <= i < |r| && !r[i].external :: r[i].url == start || Followable(GetDomain(start), r[i].url)
    ensures forall i | 0 <= i < |r| && r[i].external :: Claimable(PlatformDomains, r[i].url)
    ensures forall i, j | 0 <= i < j < |r| && r[i].url == r[j].url :: r[i].url == start
    ensures start in site ==> exists i | 0 <= i < |r| && !r[i].external :: r[i].url == start
    ensures forall i, k | 0 <= i < |r| && !r[i].external && r[i].url in site && 0 <= k < |site[r[i].url].anchors| ::
      var a := site[r[i].url].anchors[k].abs;
      Followable(GetDomain(start), a) && a in site ==> exists j | 0 <= j < |r| :: r[j].url == a
    ensures forall i, k | 0 <= i < |r| && !r[i].external && r[i].url in site && 0 <= k < |site[r[i].url].anchors| ::
      var h := site[r[i].url].anchors[k].href;
      Claimable(PlatformDomains, h) && h in site ==>
        (exists j | 0 <= j < |r| :: r[j].url == h)
        || (!Followable(GetDomain(start), h)
            && exists j, q | 0 <= j < |r| && !r[j].external && r[j].url in site && 0 <= q < |site[r[j].url].anchors| ::
                 site[r[j].url].anchors[q].abs == h)
    ensures forall i | 0 <= i < |r| && !r[i].external && r[i].url != start ::
      exists j, k | 0 <= j < i && !r[j].external && r[j].url in site && 0 <= k < |site[r[j].url].anchors| ::
        site[r[j].url].anchors[k].abs == r[i].url
    ensures forall i | 0 <= i < |r| && r[i].external ::
      exists j, k | 0 <= j < i && !r[j].external && r[j].url in site && 0 <= k < |site[r[j].url].anchors| ::
        site[r[j].url].anchors[k].href == r[i].url
  {
    var c := new EventCollector(GetDomain(start), variant);
    ghost var seen, fetched := CrawlSite(c, site, start);
    ghost var visited, linkClaims := c.visited, c.linkClaims;
    FetchHandOffs(c, site);
    r := c.result;
    CollectorTests(c, start);
    EventOutcomeSafe(variant, site, start, c.followable, c.claimable, visited, linkClaims, c.handedOff, seen, fetched, r);
    EventOutcomeComplete(variant, site, start, c.followable, c.claimable, visited, linkClaims, c.handedOff, seen, fetched, r);
  }

  /** The site collector's crawl, from `start` until nothing is pending. */
  method CrawlSite(c: EventCollector, site: Site, start: Bytes) returns (ghost seen: set<Bytes>, ghost fetched: seq<Bytes>)
    requires c.Valid() && c.TestsHold()
    requires c.visited == {} && c.linkClaims == {} && c.handedOff == [] && c.result == []
    modifies c`visited, c`linkClaims, c`handedOff, c`result
    ensures EventFinished(c.followable, c.claimable, site, start, c.visited, c.linkClaims, c.handedOff, seen, fetched)
    ensures c.result == Tagged(Records(c.variant, EventMinLen, EventMaxLen, site, fetched), false)
  {
    ghost var universe := Strings(site) + {start};
    var seen' := {start};
    var pending := [start];
    fetched := [];
    EventCrawlingStart(c, site, start);
    while pending != []
      invariant EventCrawling(c, site, start, seen', pending, fetched)
      decreases |universe - seen'|, |pending|
    {
      ghost var seen0 := seen';
      seen', pending, fetched := FetchNextEvent(c, site, start, seen', pending, fetched);
      if seen' != seen0 {
        RemainderShrinks(universe, seen0, seen');
      }
    }
    EventCrawlingDone(c, site, start, seen', fetched);
    seen := seen';
  }

  /** `followable` and `claimable` are the tests of a crawl from `start`. */
  ghost predicate CrawlerTests(start: Bytes, followable: Bytes -> bool, claimable: Bytes -> bool) {
    && (forall x :: followable(x) <==> Followable(GetDomain(start), x))
    && (forall x :: claimable(x) <==> Claimable(PlatformDomains, x))
  }

  /** A collector built for `start` uses the two tests of a crawl from
      `start`. */
  lemma CollectorTests(c: EventCollector, start: Bytes)
    requires c.TestsHold() && c.startDomain == GetDomain(start) && c.platforms == PlatformDomains
    ensures CrawlerTests(start, c.followable, c.claimable)
  {
    forall x ensures c.followable(x) <==> Followable(GetDomain(start), x) {
      assert c.FollowTest(x);
    }
    forall x ensures c.claimable(x) <==> Claimable(PlatformDomains, x) {
      assert c.ClaimTest(x);
    }
  }

  /** What a finished crawl guarantees about each record of its result,
      once the two tests are the crawler's. */
  lemma EventOutcomeSafe(variant: CleanVariant, site: Site, start: Bytes, followable: Bytes -> bool, claimable: Bytes -> bool,
                         visited: set<Bytes>, linkClaims: set<Bytes>, handedOff: seq<Bytes>, seen: set<Bytes>, fetched: seq<Bytes>,
                         r: seq<ScrapedPage>)
    requires CrawlerTests(start, followable, claimable)
    requires EventFinished(followable, claimable, site, start, visited, linkClaims, handedOff, seen, fetched)
    requires r == Outcome(variant, site, fetched, handedOff)
    ensures forall i | 0 <= i < |r| ::
      r[i].url in site && r[i].text == BodyText(variant, EventMinLen, EventMaxLen, site[r[i].url].text)
    ensures forall i | 0 <= i < |r| && !r[i].external :: r[i].url == start || Followable(GetDomain(start), r[i].url)
    ensures forall i | 0 <= i < |r| && r[i].external :: Claimable(PlatformDomains, r[i].url)
    ensures forall i, j | 0 <= i < j < |r| && r[i].url == r[j].url :: r[i].url == start
    ensures forall i | 0 <= i < |r| && !r[i].external && r[i].url != start ::
      exists j, k | 0 <= j < i && !r[j].external && r[j].url in site && 0 <= k < |site[r[j].url].anchors| ::
        site[r[j].url].anchors[k].abs == r[i].url
    ensures forall i | 0 <= i < |r| && r[i].external ::
      exists j, k | 0 <= j < i && !r[j].external && r[j].url in site && 0 <= k < |site[r[j].url].anchors| ::
        site[r[j].url].anchors[k].href == r[i].url
  {
    EventOutcomeSound(followable, claimable, variant, site, start, visited, linkClaims, handedOff, seen, fetched);
    FinishedLists(followable, claimable, site, start, visited, linkClaims, handedOff, seen, fetched);
    EventOutcomeDistinct(variant, site, start, fetched, handedOff);
    EventOutcomeReachedInternal(followable, variant, site, start, linkClaims, seen, fetched, handedOff);
    EventOutcomeReachedExternal(variant, site, fetched, handedOff);
  }

  /** What a finished crawl guarantees to have recorded, once the two
      tests are the crawler's. */
  lemma EventOutcomeComplete(variant: CleanVariant, site: Site, start: Bytes, followable: Bytes -> bool, claimable: Bytes -> bool,
                             visited: set<Bytes>, linkClaims: set<Bytes>, handedOff: seq<Bytes>, seen: set<Bytes>, fetched: seq<Bytes>,
                             r: seq<ScrapedPage>)
    requires CrawlerTests(start, followable, claimable)
    requires EventFinished(followable, claimable, site, start, visited, linkClaims, handedOff, seen, fetched)
    requires r == Outcome(variant, site, fetched, handedOff)
    ensures start in site ==> exists i | 0 <= i < |r| && !r[i].external :: r[i].url == start
    ensures forall i, k | 0 <= i < |r| && !r[i].external && r[i].url in site && 0 <= k < |site[r[i].url].anchors| ::
      var a := site[r[i].url].anchors[k].abs;
      Followable(GetDomain(start), a) && a in site ==> exists j | 0 <= j < |r| :: r[j].url == a
    ensures forall i, k | 0 <= i < |r| && !r[i].external && r[i].url in site && 0 <= k < |site[r[i].url].anchors| ::
      var h := site[r[i].url].anchors[k].href;
      Claimable(PlatformDomains, h) && h in site ==>
        (exists j | 0 <= j < |r| :: r[j].url == h)
        || (!Followable(GetDomain(start), h)
            && exists j, q | 0 <= j < |r| && !r[j].external && r[j].url in site && 0 <= q < |site[r[j].url].anchors| ::
                 site[r[j].url].anchors[q].abs == h)
  {
    NoEventKeywordInEmpty();
    assert !followable([]);
    EventOutcomeClosed(followable, claimable, variant, site, start, visited, linkClaims, handedOff, seen, fetched);
  }

  /** Fetching hand-off `j` appends its external record, after what `pre`
      and the earlier hand-offs recorded, when it fetches. */
  lemma ExternalStep(variant: CleanVariant, site: Site, pre: seq<ScrapedPage>, hs: seq<Bytes>, j: int)
    requires 0 <= j < |hs|
    ensures var before := pre + Tagged(Records(variant, EventMinLen, EventMaxLen, site, hs[..j]), true);
      var after := pre + Tagged(Records(variant, EventMinLen, EventMaxLen, site, hs[..j + 1]), true);
      after == if hs[j] in site then before + [ScrapedPage(hs[j], BodyText(variant, EventMinLen, EventMaxLen, site[hs[j]].text), true)]
               else before
  {
    var done := hs[..j];
    assert hs[..j + 1] == done + [hs[j]];
    RecordsSnoc(variant, EventMinLen, EventMaxLen, site, done, hs[j]);
    if hs[j] in site {
      TaggedAppend(Records(variant, EventMinLen, EventMaxLen, site, done),
                   PageData(hs[j], BodyText(variant, EventMinLen, EventMaxLen, site[hs[j]].text)), true);
    }
  }

  /** The external collectors: each hand-off, in the order it was sent, is
      fetched and, if it fetches, recorded as external after what is
      already recorded. */
  method FetchHandOffs(c: EventCollector, site: Site)
    modifies c`result
    ensures c.result == old(c.result) + Tagged(Records(c.variant, EventMinLen, EventMaxLen, site, c.handedOff), true)
  {
    ghost var internal := c.result;
    var hs := c.handedOff;
    var j := 0;
    assert hs[..0] == [];
    while j < |hs|
      invariant 0 <= j <= |hs|
      invariant c.result == internal + Tagged(Records(c.variant, EventMinLen, EventMaxLen, site, hs[..j]), true)
    {
      var link := hs[j];
      ExternalStep(c.variant, site, internal, hs, j);
      if link in site {
        c.OnExternalBody(link, site[link].text);
      }
      j := j + 1;
    }
    assert hs[..j] == hs;
  }
}
