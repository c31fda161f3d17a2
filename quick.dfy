/** The pure parts of scraper/quick.go: its keyword predicate and its own
    `cleanAndTrim`, which only trims and truncates. */
module Quick {
  import opened ByteStrings
  import opened Helpers

  /** `matchKeywords`. */
  const MatchKeywords: seq<Bytes> := ["about", "about-us", "info", "contact"]

  /** `containsKeyword(link)`: the lower-cased link contains `about`,
      `info` or `contact`; the entry `about-us` never decides anything
      because every link containing it also contains `about`. */
  function ContainsKeyword(link: Bytes): (r: bool)
    ensures r <==> || IsSubstring("about", Lower(link))
                   || IsSubstring("info", Lower(link))
                   || IsSubstring("contact", Lower(link))
  {
    var l := Lower(link);
    var r := AnyKeywordIn(l, MatchKeywords);
    assert MatchKeywords[0] == "about" && MatchKeywords[1] == "about-us";
    assert MatchKeywords[2] == "info" && MatchKeywords[3] == "contact";
    assert IsSubstring("about-us", l) ==> IsSubstring("about", l) by {
      if IsSubstring("about-us", l) {
        ExtensionSubsumed("about", "about-us", l);
      }
    }
    r
  }

  /** `cleanAndTrim(text, min, max)` of quick.go: the trimmed text, cut to
      at most `max` bytes; `min` is never read. */
  function CleanAndTrimQuick(text: Bytes, min: int, max: nat): (r: Bytes)
    ensures r <= TrimSpace(text)
    ensures |r| == Min(|TrimSpace(text)|, max)
  {
    var t := TrimSpace(text);
    if |t| > max then t[..max] else t
  }

  lemma CleanAndTrimQuickIgnoresMin(text: Bytes, m1: int, m2: int, max: nat)
    ensures CleanAndTrimQuick(text, m1, max) == CleanAndTrimQuick(text, m2, max)
  {
  }
}
