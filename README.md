# Keyword-scoped scraper: a Dafny model

This project models the core of a Go web scraper built on colly. It covers two parts.

The text and URL utilities of `scraper/helpers.go` and their near-duplicates in `scraper/quick.go` and `scraper/product.go`:
- keyword-substring tests;
- host extraction by `https?://([^/]+)/?`;
- tag stripping with whitespace collapse;
- the two different `cleanAndTrim` functions.

The three crawlers, `QuickScrape`, `ProductScrape` and `EventCrawler`, as sequential state machines over an abstract site.

Strings are byte sequences (`ByteStrings.Bytes`). Lower-casing and whitespace are ASCII. Each regular expression is written out concretely:
- a "match length at this position" function per pattern;
- one leftmost, non-overlapping deleter, `Regex.DeleteAll`, as RE2's `ReplaceAllString(s, "")` behaves.

The package declares `stripHTML`, `getDomain`, `PageData` and `ScrapeResult` twice, with identical bodies, so each is modelled once. It also declares `cleanAndTrim` twice with different bodies, and both are modelled:
- `Helpers.CleanAndTrimFull` (helpers.go): removes script/style blocks and code-like fragments, collapses whitespace and enforces `minLen`;
- `Quick.CleanAndTrimQuick` (quick.go): trims, truncates and ignores `min`.

The crawlers take a `Pages.CleanVariant` naming the one in force.

A site is a map from URL to `Site.Page`. A page carries its HTML text and its anchors in document order. Each `Site.Anchor` carries the raw `href` attribute and the link resolved against the page URL (`abs`). A URL missing from the map fails to fetch. A crawl is a worklist loop:
- it pops a URL;
- if the page fetches, it runs the `body` callback and then the `a[href]` callback on each anchor, in registration order as colly does;
- it queues each link the callback hands to `Visit`.

colly's own "already visited" store is the set `seen`. `AllowedDomains(getDomain(start))` is modelled as equality of `GetDomain` results.

The quick and product crawlers share `Crawl.FollowCrawler`, parameterised by a `Crawl.Task`. Its link handler:
- skips an empty or already-visited link;
- claims a link only when it passes the keyword test, and follows it then.

The event crawler, `Event.EventCollector`, has two rules that share one `visited` set:
- the body rule hands every raw `href` whose host contains a platform literal to the `externalLinks` channel (`handedOff`), once;
- the link rule claims every non-empty resolved link before it tests the host and the event keywords.

The second phase, `Event.FetchHandOffs`, fetches the hand-offs in channel order and records them as external.

The event collector keeps its two tests, the host-and-keyword test of the link rule and the platform-host test of the body rule, as fields fixed by its constructor. The crawl invariants are stated for those fields, and `Event.CollectorTests` ties them to `Event.Followable` and `Event.Claimable`.

Four behaviours of the code that the model keeps:
- The event keyword test is case-sensitive: an unanchored regex alternation with no `(?i)` flag. The keyword tests of the quick and product crawlers lower-case the link first.
- The event link rule claims a link before the host and keyword test. So a rejected link is never reconsidered, and a link the rule claims first is never handed off.
- The hand-off rule tests the raw `href`, while the link rule tests the resolved link.
- The crawlers call `stripHTML` before `cleanAndTrim`. So the script and style removals see text whose tags are already gone.

## Model

| member | source | states |
|---|---|---|
| ByteStrings.Lower | scraper/helpers.go:18 | `strings.ToLower` on bytes: same length, each byte ASCII-lower-cased |
| ByteStrings.LowerIdempotent | scraper/helpers.go:18 | lower-casing twice is lower-casing once |
| ByteStrings.Contains | scraper/helpers.go:20 | `strings.Contains(s, k)` is true iff `k` occurs in `s` as a contiguous block |
| ByteStrings.ExtensionSubsumed | scraper/quick.go:21-23 | a string containing a keyword also contains every prefix of it (why `about-us`, `events` and the plural product keywords are redundant) |
| ByteStrings.TrimSpace | scraper/helpers.go:45 | `strings.TrimSpace`: the result is the input minus an all-space prefix and suffix, and starts and ends with a non-space |
| ByteStrings.Fields | scraper/helpers.go:29 | `strings.Fields`: every field is non-empty and space-free (that the fields are exactly the maximal non-space runs, in order, is ByteStrings.FieldsSplit) |
| ByteStrings.JoinSingleSpaced | scraper/helpers.go:29 | joining space-free non-empty fields with one space gives text with no leading, trailing or doubled whitespace |
| ByteStrings.FieldsOfJoin | scraper/helpers.go:29 | splitting such a join gives back the fields |
| ByteStrings.SplitExists | scraper/helpers.go:29 | every string is its gaps (runs of bytes of a given class) interleaved with the words between them; every inner gap is non-empty, every word non-empty and free of the class |
| ByteStrings.FieldsOfWeave | scraper/helpers.go:29 | `strings.Fields` of a string so split at space bytes returns exactly its words, in order |
| ByteStrings.FieldsSplit | scraper/helpers.go:29 | for every input the fields are its maximal non-space runs in order: with all-space gaps, non-empty between two fields, they rebuild the input |
| Helpers.AnyKeywordIn | scraper/helpers.go:19-24 | the early-return search is true iff some keyword occurs in the string |
| Helpers.ContainsAny | scraper/helpers.go:17-25 | `containsAny` is true iff some keyword occurs in the lower-cased link; false for no keywords |
| Helpers.ContainsAnyIgnoresCase | scraper/helpers.go:18 | `containsAny(link, ks) == containsAny(lower(link), ks)` |
| Helpers.GetDomain | scraper/helpers.go:58-65 | the host never holds `/`; it is empty iff no `http://` or `https://` followed by a non-`/` byte occurs; it occurs in the link |
| Helpers.SchemeLenOfUrl | scraper/helpers.go:59 | the scheme that `https?://` matches in front of a host is exactly the URL's own scheme |
| Helpers.SlashAfterHost | scraper/helpers.go:59-63 | the capture `([^/]+)` ends at the first `/` after the host |
| Helpers.DomainOfUrl | scraper/helpers.go:58-65 | for `http(s)://` + non-empty slash-free host + (nothing or `/`…) the result is that host |
| Regex.TagLen | scraper/helpers.go:28 | the match of `<[^>]+>` at the start: a `<`, at least one non-`>` byte, a `>`; zero iff there is none |
| Regex.FindEnd | scraper/helpers.go:34-35 | a non-zero result is the end of an occurrence of the closing tag |
| Regex.FindEndFirst | scraper/helpers.go:34-35 | the lazy `.*?</script>` stops at the first occurrence: none ends earlier, and none exists when the result is zero |
| Regex.LazyCloseLen | scraper/helpers.go:34-35 | a match of `.*?>.*?</script>` ends with the closing tag and has a `>` before it |
| Regex.BlockLen | scraper/helpers.go:34-35 | a match of `<script.*?>.*?</script>` (or style) at the start is the opening tag followed by a match of `.*?>.*?</script>` of the rest |
| Regex.JsLikeLen | scraper/helpers.go:36 | a match of the JS-like pattern starts with `var`/`let`/`function` (any case) and ends with `{` or `(` |
| Regex.CssLikeLen | scraper/helpers.go:37 | a match of `\.\w+\s*\{` starts with `.` and a word byte and ends with `{` |
| Regex.DeleteAll | scraper/helpers.go:39-42 | `ReplaceAllString(s, "")` only deletes: the result's bytes are a sub-multiset of the input's and it is no longer |
| Regex.DeleteAllNoMatch | scraper/helpers.go:28 | deleting a pattern that matches nowhere changes nothing |
| Helpers.DeleteTagsTagFree | scraper/helpers.go:28 | after the tag pass no `<…>` tag is left |
| Helpers.CollapseTagFree | scraper/helpers.go:29 | collapsing whitespace keeps a tag-free text tag-free |
| Helpers.StripHtml | scraper/helpers.go:27-30 | `stripHTML` output has exactly the fields (maximal non-space runs) of the tag-deleted input, in order; it has no `<…>` tag and no leading, trailing or doubled whitespace |
| Helpers.StripHtmlIdempotent | scraper/helpers.go:27-30 | `stripHTML(stripHTML(x)) == stripHTML(x)` |
| Helpers.CollapseRegexSpaces | scraper/helpers.go:46 | `\s+` → one space: no longer, no run of two `[\t\n\f\r ]`, empty iff the input is, first and last byte keep their kind |
| Helpers.CollapseGap | scraper/helpers.go:46 | a non-empty `\s` run followed by a non-`\s` byte, or by nothing, becomes one space |
| Helpers.CollapseWord | scraper/helpers.go:46 | non-`\s` bytes are copied unchanged |
| Helpers.CollapseOfWeave | scraper/helpers.go:46 | for a string split at `\s` runs, the result keeps every word in order and replaces each non-empty run by exactly one space |
| Helpers.CollapseSplit | scraper/helpers.go:46 | every input has such a split, so the collapse keeps the non-`\s` bytes in order and turns each `\s` run into one space |
| Helpers.Normalize | scraper/helpers.go:39-46 | the text after the four deletions, `TrimSpace` and the collapse is no longer than the raw text, has no run of two `[\t\n\f\r ]` and no leading or trailing `[\t\n\f\r ]` (a `\v` run survives, as in Go) |
| Helpers.CleanAndTrimFull | scraper/helpers.go:32-56 | empty when the normalised text is shorter than `minLen`, else its prefix of length `min(len, maxLen)`; never longer than the raw text; keeps the no-run property |
| Quick.ContainsKeyword | scraper/quick.go:72-80 | true iff the lower-cased link contains `about`, `info` or `contact` |
| Quick.CleanAndTrimQuick | scraper/quick.go:96-102 | a prefix of the trimmed text whose length is `min(len, max)` |
| Quick.CleanAndTrimQuickIgnoresMin | scraper/quick.go:96-102 | the result does not depend on `min` |
| Product.ContainsAnyKeyword | scraper/product.go:66-74 | agrees with `containsAny` on every input |
| Product.ProductMatchIffStem | scraper/product.go:11-15 | with `productKeywords` a link matches iff it contains one of the six singular stems |
| Pages.CleanAndTrim | scraper/product.go:35 | either variant bounds the text by `maxLen` |
| Pages.BodyText | scraper/product.go:35 | the body text is at most `maxLen` bytes (1000 for product, 2000 for quick) |
| Pages.RecordsSnoc | scraper/quick.go:41-49 | fetching one more URL appends exactly one record for it if it fetches, and nothing otherwise |
| Pages.RecordsSound | scraper/quick.go:41-49 | every record is of a fetched URL that fetches, with that page's cleaned text |
| Pages.RecordsComplete | scraper/quick.go:41-49 | every fetched URL that fetches has a record |
| Pages.RecordsDistinct | scraper/quick.go:41-49 | records repeat a URL only where the fetch list does |
| Pages.RecordsAppend | scraper/quick.go:41-49 | fetching one list and then another records the pages of the first, then those of the second |
| Pages.RecordedBefore | scraper/quick.go:41-49 | with no URL fetched twice, a page fetched before a recorded one that fetches is recorded before it |
| Pages.RecordsLinked | scraper/quick.go:51-60 | when each fetched URL but the first is linked from a page fetched before it, each record but the first URL's is linked from a page recorded before it |
| Site.LinkedExtend | scraper/quick.go:40-60 | fetching one more page keeps each queued URL linked from a page fetched before its position |
| Site.LinkedAdmit | scraper/quick.go:51-59 | queueing a link of the page just fetched keeps each queued URL linked from a page fetched before its position |
| Crawl.FollowCrawler.constructor | scraper/quick.go:37-39 | empty `visited` and `pages` |
| Crawl.FollowCrawler.OnBody | scraper/quick.go:41-49 | appends exactly one record with the request URL and the cleaned text, even when empty; earlier records unchanged |
| Crawl.FollowCrawler.OnLink | scraper/quick.go:51-60 | follows iff the link is non-empty, unclaimed and passes the keyword test; only then is it claimed, otherwise `visited` is unchanged; every claim passed the test |
| Crawl.FollowAnchors | scraper/quick.go:51-60 | after a page's links are handled, the admitted URLs are each admitted once, every followable in-domain link is admitted and the frontier only grows |
| Crawl.FetchNext | scraper/quick.go:41-60 | one fetch keeps the crawl invariant and makes progress |
| Crawl.CrawlFrom | scraper/quick.go:66-67 | `Visit(start)` then `Wait()` ends with nothing pending, every fetched page's links handled, and the records of the fetched URLs in fetch order |
| Crawl.Scrape | scraper/quick.go:25-70 | records are sound and distinct, each is the start URL or a keyword-matching in-domain link, the start page and every followable target of a recorded page are recorded, and every other record is linked from a page recorded before it |
| Crawl.ScrapeOutcome | scraper/quick.go:41-69 | the records of a finished crawl meet every guarantee of Crawl.Scrape |
| Crawl.StartRecorded | scraper/quick.go:66 | the start page is recorded when it fetches |
| Crawl.OutcomeSound | scraper/quick.go:51-60 | the records of a finished crawl are sound, allowed and pairwise distinct |
| Crawl.OutcomeClosed | scraper/quick.go:51-60 | every in-domain keyword target of a record that fetches is recorded |
| Crawl.OutcomeReached | scraper/quick.go:51-60 | every record but the start page's is the target of an anchor on a page recorded before it |
| Crawl.QuickScrape | scraper/quick.go:25-70 | records fetch and carry `cleanAndTrim(stripHTML(text), 400, 2000)` of their page, so at most 2000 bytes; they are the start page or about/info/contact pages of the start host, are distinct, include the start page, every in-domain keyword target of a record is recorded, and every record but the start page's is linked from an earlier one |
| Crawl.ProductScrape | scraper/product.go:17-63 | the same for product keywords, with `cleanAndTrim(stripHTML(text), 400, 1000)` |
| Event.MatchEventKeyword | scraper/event.go:47 | the joined pattern matches iff one of the seven stems occurs in the link as written (`events` adds nothing) |
| Event.UpperCaseLinkNoEventMatch | scraper/event.go:47 | the match is case-sensitive: a link with no lower-case letter, such as a URL written in upper case, matches no keyword |
| Event.LowerCaseUrlEventMatch | scraper/event.go:47 | `https://example.com/events` matches |
| Event.UpperCaseUrlNoEventMatch | scraper/event.go:47 | `HTTPS://EXAMPLE.COM/EVENTS` does not match |
| Event.NoEventKeywordInEmpty | scraper/event.go:47 | the empty link matches no event keyword |
| Event.NoSchemeNoHandOff | scraper/event.go:68-70 | an href without `http(s)://` has the empty host, which no platform literal matches |
| Event.HandOffs | scraper/event.go:63-76 | the hand-offs of one page are duplicate-free, each has a platform host and none was claimed before |
| Event.HandOffsComplete | scraper/event.go:63-76 | every platform href of the page is handed off or was claimed before |
| Event.HandOffsFromAnchors | scraper/event.go:63-76 | every hand-off is the href of an anchor of the page |
| Event.HandOffKeepsClaims | scraper/event.go:71-73 | a fresh claim keeps the channel duplicate-free and every channel entry claimed |
| Event.EventCollector.constructor | scraper/event.go:42-45 | empty `visited`, `result` and channel |
| Event.EventCollector.HandOff | scraper/event.go:68-75 | sends the href iff its host matches a platform literal and it was unclaimed, once however many literals match; claims it iff its host matches |
| Event.EventCollector.OnBody | scraper/event.go:53-77 | appends one internal record, then sends exactly this page's unclaimed platform hrefs, in document order |
| Event.EventCollector.HandOffHrefs | scraper/event.go:63-76 | for each `a[href]` of the page in order, skips the empty href and hands off the rest; the channel gains exactly this page's hand-offs and the claims gain exactly them |
| Event.EventCollector.OnLink | scraper/event.go:79-90 | claims every non-empty link; follows iff it was unclaimed, has the start host and an event keyword |
| Event.EventCollector.OnExternalBody | scraper/event.go:109-118 | appends one external record with the cleaned text |
| Event.FollowEventAnchors | scraper/event.go:79-90 | after a page's links, each admitted URL was admitted once and every followable link claim is admitted |
| Event.FetchNextEvent | scraper/event.go:53-90 | one fetch keeps the first-phase invariant and makes progress |
| Event.CrawlSite | scraper/event.go:96-100 | the site pass terminates with every page's links and platform hrefs handled and the internal records in fetch order |
| Event.FetchHandOffs | scraper/event.go:102-125 | every URL on the channel is fetched once, in order, and recorded as external if it fetches |
| Event.EventCrawler | scraper/event.go:36-127 | every record fetches with its cleaned text; internal ones are the start page or followable, external ones have a platform host; only the start URL can appear twice; the start page and every followable target are recorded; every platform href is recorded unless a resolved link equal to it was claimed first and not followed; every record but the start page's is linked from an internal record before it |
| Event.CollectorTests | scraper/event.go:37-87 | the collector's two tests are the host-and-keyword test of the start domain and the platform-host test |
| Event.EventOutcomeSafe | scraper/event.go:36-127 | about each record of a finished first phase followed by the drained channel: it fetches with its cleaned text, internal ones are the start page or followable, external ones have a platform host, only the start URL repeats, and each but the start page's is linked from an internal record before it |
| Event.EventOutcomeComplete | scraper/event.go:36-127 | about what a finished run recorded: the start page, every followable target, and every platform href unless a resolved link equal to it was claimed first and not followed |
| Event.ExternalStep | scraper/event.go:109-120 | fetching the next channel entry appends its external record after the earlier ones when it fetches, and nothing otherwise |
| Event.EventOutcomeSound | scraper/event.go:53-118 | every record, internal (body rule) or external (drain workers), fetches and has the cleaned text; the origin flag matches the rule that produced it |
| Event.EventOutcomeDistinct | scraper/event.go:71-73 | with duplicate-free fetch lists sharing only the start URL, no other URL is recorded twice |
| Event.EventOutcomeClosed | scraper/event.go:84-88 | the start page, every followable target and every unshadowed platform href of an internal page are recorded |
| Event.EventOutcomeReachedInternal | scraper/event.go:87-88 | every internal record but the start page's is the resolved link of an anchor on an internal page recorded before it |
| Event.EventOutcomeReachedExternal | scraper/event.go:69-73 | every external record is the raw href of an anchor on an internal page recorded before it |

## Left out

- The HTTP routes, the server setup and the URL-reachability probe: these are I/O wrappers around the crawlers. `scraper.EventScrape`, called by the event route, is not part of this model.
- Fetching, DOM parsing and `e.DOM.Text()`: page text and anchors are inputs (`Site.Page`). `AbsoluteURL` resolution is likewise an input (`Site.Anchor.abs`). Redirects, URL normalisation, error pages and request timeouts are not modelled. A page either fetches (is in the map) or does not.
- colly's `AllowedDomains`: modelled as equality of `getDomain` results, not of `URL.Hostname()`. A port or upper-case letters in the host can make the two differ.
- Concurrency: goroutines, `Async`, `LimitRule` parallelism and delays, the mutex, `sync.Map` atomicity, the ten drain workers, `WaitGroup`, and the channel's capacity of 100 and its blocking.
  - The model is the sequential reading: one fetch at a time in worklist order, the site pass finishing before the channel is drained in order, internal records before external ones.
  - In the Go program, records appear in completion order and the two phases overlap.
  - The unlocked `visited` map of quick.go and product.go is safe only in this reading.
- Logging (`log.Printf` in `OnRequest`).
- Unicode: `strings.ToLower`, `TrimSpace` and `Fields` are modelled on ASCII bytes, and `(?i)` folds ASCII only.
- Structured event fields (title, date, speakers, host), robots.txt and a headless-browser fallback: no file of the program implements them.
- Helpers.CleanAndTrimFull: `maxLen` is a `nat`, so the slice-bounds panic that a negative bound causes in Go is not modelled; every call site passes a positive constant (2000, 1000 or 10000).
- Quick.CleanAndTrimQuick: same as Helpers.CleanAndTrimFull for a negative `max`.
- Regex.JsLikeLen: the contract states the shape of a match (its keyword and its last byte), not the whole pattern. The pattern is the function's body, and the length properties of cleaning need only that a match is deleted.
- Regex.CssLikeLen: same as Regex.JsLikeLen.
- Regex.BlockLen: its contract states the decomposition into the opening tag and a match of `.*?>.*?close`; the closing tag and the `>` are stated on Regex.LazyCloseLen, relative to the part after the opening tag.
- Pages.CleanAndTrim: states only the `maxLen` bound shared by both variants. Each variant's exact result is stated on Helpers.CleanAndTrimFull and Quick.CleanAndTrimQuick.
