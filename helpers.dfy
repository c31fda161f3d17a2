/** The pure text and URL utilities of scraper/helpers.go: keyword
    matching, host extraction, tag stripping and the cleaning pipeline. */
module Helpers {
  import opened ByteStrings
  import opened Regex

  // ---------------------------------------------------------------------
  // containsAny

  /** The search loop of `containsAny` over an already lower-cased link:
      it returns on the first keyword that occurs. */
  function AnyKeywordIn(l: Bytes, keywords: seq<Bytes>): (r: bool)
    ensures r <==> exists j | 0 <= j < |keywords| :: IsSubstring(keywords[j], l)
  {
    if keywords == [] then false
    else
      var r := Contains(l, keywords[0]) || AnyKeywordIn(l, keywords[1..]);
      assert forall j | 1 <= j < |keywords| :: keywords[j] == keywords[1..][j - 1];
      r
  }

  /** Searching one more keyword of the list. */
  lemma AnyKeywordInStep(l: Bytes, keywords: seq<Bytes>, j: int)
    requires 0 <= j < |keywords|
    ensures AnyKeywordIn(l, keywords[..j + 1]) <==> AnyKeywordIn(l, keywords[..j]) || IsSubstring(keywords[j], l)
  {
    var a, b := keywords[..j], keywords[..j + 1];
    assert forall q | 0 <= q < j :: a[q] == b[q];
    assert b[j] == keywords[j];
  }

  /** `containsAny(link, keywords)`: some keyword occurs in the
      lower-cased link; false for an empty keyword list. */
  function ContainsAny(link: Bytes, keywords: seq<Bytes>): (r: bool)
    ensures r <==> exists j | 0 <= j < |keywords| :: IsSubstring(keywords[j], Lower(link))
    ensures keywords == [] ==> !r
  {
    AnyKeywordIn(Lower(link), keywords)
  }

  /** The case of the link does not matter. */
  lemma ContainsAnyIgnoresCase(link: Bytes, keywords: seq<Bytes>)
    ensures ContainsAny(link, keywords) == ContainsAny(Lower(link), keywords)
  {
    LowerIdempotent(link);
  }

  // ---------------------------------------------------------------------
  // getDomain

  const HttpScheme: Bytes := "http://"
  const HttpsScheme: Bytes := "https://"

  /** A match of `https?://([^/]+)` starts at index `i` of `s`. */
  ghost predicate UrlAt(s: Bytes, i: int) {
    || (OccursAt(HttpsScheme, s, i) && i + 8 < |s| && s[i + 8] != '/')
    || (OccursAt(HttpScheme, s, i) && i + 7 < |s| && s[i + 7] != '/')
  }

  /** Some index where a match starts, when there is one. */
  ghost function UrlWitness(s: Bytes): int
    requires exists i :: UrlAt(s, i)
  {
    var i :| UrlAt(s, i); i
  }

  /** Length of the scheme part of the match at the start of `s`, 0 when no
      match starts there. `s?` is greedy, so `https://` is tried first. */
  function SchemeLen(s: Bytes): (n: nat)
    ensures n == 0 || n == 7 || n == 8
    ensures n > 0 <==> UrlAt(s, 0)
    ensures n > 0 ==> n < |s| && s[n] != '/'
  {
    if |s| > 8 && s[..8] == HttpsScheme && s[8] != '/' then 8
    else if |s| > 7 && s[..7] == HttpScheme && s[7] != '/' then 7
    else 0
  }

  /** `getDomain(link)`: the capture group `([^/]+)` of the leftmost match
      of the unanchored `https?://([^/]+)/?`, or "" when there is none. */
  function GetDomain(link: Bytes): (h: Bytes)
    ensures '/' !in h
    ensures h == [] <==> forall i :: !UrlAt(link, i)
    ensures IsSubstring(h, link)
    decreases |link|
  {
    if link == [] then
      assert OccursAt([], link, 0);
      []
    else
      var n := SchemeLen(link);
      if n > 0 then
        var rest := link[n..];
        var h := rest[..IndexOfByte(rest, '/')];
        assert OccursAt(h, link, n);
        h
      else
        var h := GetDomain(link[1..]);
        forall i | 1 <= i ensures UrlAt(link, i) <==> UrlAt(link[1..], i - 1) {
          OccursAtTail(HttpScheme, link, i - 1);
          OccursAtTail(HttpsScheme, link, i - 1);
        }
        assert h != [] ==> UrlAt(link, 1 + UrlWitness(link[1..])) by {
          if h != [] {
            assert UrlAt(link[1..], UrlWitness(link[1..]));
          }
        }
        var k :| OccursAt(h, link[1..], k);
        OccursAtTail(h, link, k);
        h
  }

  /** A scheme followed by something other than a slash is matched in
      full. */
  lemma SchemeLenOfUrl(scheme: Bytes, t: Bytes)
    requires scheme == HttpScheme || scheme == HttpsScheme
    requires t != [] && t[0] != '/'
    ensures SchemeLen(scheme + t) == |scheme|
  {
    var link := scheme + t;
    assert link[..|scheme|] == scheme;
    assert link[|scheme|] == t[0];
    if scheme == HttpScheme {
      assert link[4] == ':';
    }
  }

  /** The first slash of `host + rest` is where `rest` starts. */
  lemma SlashAfterHost(host: Bytes, rest: Bytes)
    requires '/' !in host
    requires rest == [] || rest[0] == '/'
    ensures IndexOfByte(host + rest, '/') == |host|
  {
    var t := host + rest;
    var k := IndexOfByte(t, '/');
    assert forall i | 0 <= i < |host| :: t[i] == host[i] && host[i] in host;
    assert |t| > |host| ==> t[|host|] == '/';
    forall j | 0 <= j < k ensures t[j] != '/' {
      assert t[..k][j] == t[j];
    }
  }

  /** The host of an absolute `http://` or `https://` URL is extracted
      exactly. */
  lemma DomainOfUrl(scheme: Bytes, host: Bytes, rest: Bytes)
    requires scheme == HttpScheme || scheme == HttpsScheme
    requires host != [] && '/' !in host
    requires rest == [] || rest[0] == '/'
    ensures GetDomain(scheme + host + rest) == host
  {
    var t := host + rest;
    assert scheme + host + rest == scheme + t;
    SchemeLenOfUrl(scheme, t);
    assert (scheme + t)[|scheme|..] == t;
    SlashAfterHost(host, rest);
    assert t[..|host|] == host;
  }

  // ---------------------------------------------------------------------
  // stripHTML

  /** Every `'<'` that has some `'>'` after it is immediately followed by
      `'>'`; equivalent to having no tag (TagFreeIffNoTag). */
  ghost predicate TagFree(s: Bytes) {
    forall i, j | 0 <= i < j < |s| && s[i] == '<' && s[j] == '>' :: s[i + 1] == '>'
  }

  lemma TagFreeIffNoTag(s: Bytes)
    ensures TagFree(s) <==> !HasTag(s)
  {
    if HasTag(s) {
      var i, j :| TagAt(s, i, j);
      assert s[i] == '<' && s[j] == '>' && s[i + 1] != '>';
    }
    if !TagFree(s) {
      var i, j :| 0 <= i < j < |s| && s[i] == '<' && s[j] == '>' && s[i + 1] != '>';
      var g := IndexOfByte(s[i + 1..], '>');
      assert s[i + 1..][j - i - 1] == '>';
      assert forall k | i < k < i + 1 + g :: s[k] == s[i + 1..][..g][k - i - 1];
      assert TagAt(s, i, i + 1 + g);
    }
  }

  lemma TagFreeSlice(s: Bytes, lo: nat, hi: nat)
    requires TagFree(s) && lo <= hi <= |s|
    ensures TagFree(s[lo..hi])
  {
    var t := s[lo..hi];
    forall i, j | 0 <= i < j < |t| && t[i] == '<' && t[j] == '>' ensures t[i + 1] == '>' {
      assert s[lo + i] == '<' && s[lo + j] == '>';
    }
  }

  lemma TagFreeConcat(a: Bytes, b: Bytes)
    requires TagFree(a) && TagFree(b)
    requires forall i | 0 <= i < |a| && a[i] == '<' && '>' in b :: (a + b)[i + 1] == '>'
    ensures TagFree(a + b)
  {
    var s := a + b;
    forall i, j | 0 <= i < j < |s| && s[i] == '<' && s[j] == '>' ensures s[i + 1] == '>' {
      if j < |a| {
        assert a[i] == '<' && a[j] == '>';
      } else if i < |a| {
        assert b[j - |a|] == '>';
        assert a[i] == '<';
      } else {
        assert b[i - |a|] == '<' && b[j - |a|] == '>';
      }
    }
  }

  /** After deleting every tag, no tag is left: a `'<'` that survives is
      followed by `'>'` or by no `'>'` at all. */
  lemma {:induction false} DeleteTagsTagFree(s: Bytes)
    ensures TagFree(DeleteAll(Tag, s))
    decreases |s|
  {
    if s != [] {
      var n := TagLen(s);
      assert MatchLen(Tag, s) == n;
      if n > 0 {
        DeleteTagsTagFree(s[n..]);
      } else {
        var r := DeleteAll(Tag, s[1..]);
        DeleteTagsTagFree(s[1..]);
        assert DeleteAll(Tag, s) == [s[0]] + r;
        if s[0] == '<' && '>' in r {
          assert '>' in multiset(s[1..]);
          var g := IndexOfByte(s[1..], '>');
          assert g == 0;
          assert TagLen(s[1..]) == 0 && MatchLen(Tag, s[1..]) == 0;
          assert r == [s[1]] + DeleteAll(Tag, s[2..]);
        }
        TagFreeConcat([s[0]], r);
      }
    }
  }

  /** Splitting into fields and joining with one space keeps a string
      tag-free. */
  lemma {:induction false} CollapseTagFree(x: Bytes)
    requires TagFree(x)
    ensures TagFree(Join(Fields(x), " "))
    decreases |x|
  {
    if x == [] {
    } else if IsSpace(x[0]) {
      TagFreeSlice(x, 1, |x|);
      CollapseTagFree(x[1..]);
    } else {
      var n := TokenLen(x);
      var t, rest := x[..n], x[n..];
      TagFreeSlice(x, n, |x|);
      TagFreeSlice(x, 0, n);
      CollapseTagFree(rest);
      var fs := Fields(rest);
      assert Fields(x) == [t] + fs;
      if fs == [] {
        assert Join(Fields(x), " ") == t;
      } else {
        var j := Join(fs, " ");
        assert Join(Fields(x), " ") == t + (" " + j);
        TagFreeConcat(" ", j);
        forall i | 0 <= i < |t| && t[i] == '<' && '>' in " " + j
          ensures (t + (" " + j))[i + 1] == '>'
        {
          JoinFieldsBytes(rest, '>');
          var k :| 0 <= k < |rest| && rest[k] == '>';
          assert x[i] == '<' && x[n + k] == '>';
        }
        TagFreeConcat(t, " " + j);
      }
    }
  }

  /** `stripHTML(input)`: delete every tag, then split into fields and
      join them with one space. The result has exactly the words of the
      tag-free text, in order, one space apart, and no tag. */
  function StripHtml(input: Bytes): (r: Bytes)
    ensures Fields(r) == Fields(DeleteAll(Tag, input))
    ensures SingleSpaced(r)
    ensures !HasTag(r)
  {
    var d := DeleteAll(Tag, input);
    var r := Join(Fields(d), " ");
    FieldsOfJoin(Fields(d));
    JoinSingleSpaced(Fields(d));
    DeleteTagsTagFree(input);
    CollapseTagFree(d);
    TagFreeIffNoTag(r);
    r
  }

  /** A tag-free string has no match of the tag pattern anywhere. */
  lemma TagFreeNoMatch(s: Bytes)
    requires TagFree(s)
    ensures forall i | 0 <= i < |s| :: MatchLen(Tag, s[i..]) == 0
  {
    forall i | 0 <= i < |s| ensures MatchLen(Tag, s[i..]) == 0 {
      var t := s[i..];
    }
  }

  lemma StripHtmlIdempotent(input: Bytes)
    ensures StripHtml(StripHtml(input)) == StripHtml(input)
  {
    var d := DeleteAll(Tag, input);
    var fs := Fields(d);
    var y := StripHtml(input);
    assert y == Join(fs, " ");
    TagFreeIffNoTag(y);
    TagFreeNoMatch(y);
    DeleteAllNoMatch(Tag, y);
    FieldsOfJoin(fs);
  }

  // ---------------------------------------------------------------------
  // cleanAndTrim (the helpers.go variant)

  /** No two adjacent `\s` bytes. */
  predicate NoRegexSpaceRun(s: Bytes) {
    forall i | 0 <= i < |s| - 1 :: !(IsRegexSpace(s[i]) && IsRegexSpace(s[i + 1]))
  }

  /** `regexp.MustCompile(`\s+`).ReplaceAllString(s, " ")`: every maximal
      run of `\s` bytes becomes one space. */
  function CollapseRegexSpaces(s: Bytes): (r: Bytes)
    ensures |r| <= |s|
    ensures NoRegexSpaceRun(r)
    ensures r == [] <==> s == []
    ensures s != [] ==> && (IsRegexSpace(r[0]) <==> IsRegexSpace(s[0]))
                        && (IsRegexSpace(r[|r| - 1]) <==> IsRegexSpace(s[|s| - 1]))
    decreases |s|
  {
    if s == [] then []
    else if IsRegexSpace(s[0]) then
      var n := RegexSpaceSpan(s);
      var t := CollapseRegexSpaces(s[n..]);
      assert t != [] ==> !IsRegexSpace(t[0]);
      assert t != [] ==> t[|t| - 1] == (" " + t)[|t|];
      " " + t
    else
      var t := CollapseRegexSpaces(s[1..]);
      assert t != [] ==> t[|t| - 1] == ([s[0]] + t)[|t|];
      [s[0]] + t
  }

  /** Each gap of a split replaced by what `\s+` replacement leaves of it:
      nothing for an empty gap, one space for any other. */
  function OneSpace(gaps: seq<Bytes>): (r: seq<Bytes>)
    ensures |r| == |gaps|
    decreases |gaps|
  {
    if gaps == [] then [] else [if gaps[0] == [] then [] else " "] + OneSpace(gaps[1..])
  }

  /** A non-empty run of `\s` bytes followed by a byte outside `\s` (or by
      nothing) collapses to one space. */
  lemma CollapseGap(g: Bytes, t: Bytes)
    requires g != [] && forall j | 0 <= j < |g| :: IsRegexSpace(g[j])
    requires t == [] || !IsRegexSpace(t[0])
    ensures CollapseRegexSpaces(g + t) == " " + CollapseRegexSpaces(t)
  {
    var s := g + t;
    var n := RegexSpaceSpan(s);
    assert n == |g| by {
      assert forall j | 0 <= j < |g| :: s[j] == g[j];
      assert |g| < |s| ==> s[|g|] == t[0];
    }
    assert s[n..] == t;
  }

  /** Bytes outside `\s` are kept as they are. */
  lemma {:induction false} CollapseWord(w: Bytes, t: Bytes)
    requires forall j | 0 <= j < |w| :: !IsRegexSpace(w[j])
    ensures CollapseRegexSpaces(w + t) == w + CollapseRegexSpaces(t)
    decreases |w|
  {
    if w == [] {
      assert w + t == t;
    } else {
      var s := w + t;
      assert !IsRegexSpace(s[0]) && s[1..] == w[1..] + t;
      assert CollapseRegexSpaces(s) == [w[0]] + CollapseRegexSpaces(w[1..] + t);
      CollapseWord(w[1..], t);
      assert w == [w[0]] + w[1..];
    }
  }

  /** One gap and the word after it, collapsed. */
  lemma CollapseGapWord(g: Bytes, w: Bytes, t: Bytes)
    requires forall j | 0 <= j < |g| :: IsRegexSpace(g[j])
    requires w != [] && forall j | 0 <= j < |w| :: !IsRegexSpace(w[j])
    ensures CollapseRegexSpaces(g + (w + t)) == (if g == [] then [] else " ") + w + CollapseRegexSpaces(t)
  {
    CollapseWord(w, t);
    if g != [] {
      assert (w + t)[0] == w[0];
      CollapseGap(g, w + t);
    } else {
      assert g + (w + t) == w + t;
    }
  }

  /** Replacing every `\s+` run by one space keeps the words between the
      runs, in order, and turns each run into exactly one space. */
  lemma {:induction false} CollapseOfWeave(gaps: seq<Bytes>, words: seq<Bytes>)
    requires SplitAt(IsRegexSpace, gaps, words)
    ensures CollapseRegexSpaces(Weave(gaps, words)) == Weave(OneSpace(gaps), words)
    decreases |words|
  {
    var o := OneSpace(gaps);
    assert o == [if gaps[0] == [] then [] else " "] + OneSpace(gaps[1..]);
    if words == [] {
      if gaps[0] != [] {
        CollapseGap(gaps[0], []);
        assert gaps[0] + [] == gaps[0];
      }
    } else {
      var rest := Weave(gaps[1..], words[1..]);
      assert Weave(gaps, words) == gaps[0] + (words[0] + rest);
      CollapseGapWord(gaps[0], words[0], rest);
      CollapseOfWeave(gaps[1..], words[1..]);
    }
  }

  /** For every input there is a split at `\s` bytes whose words the
      collapse keeps in order and whose non-empty gaps it turns into one
      space each. */
  lemma CollapseSplit(s: Bytes)
    ensures exists gaps, words :: && SplitAt(IsRegexSpace, gaps, words) && Weave(gaps, words) == s
                                  && CollapseRegexSpaces(s) == Weave(OneSpace(gaps), words)
  {
    var gaps, words := SplitExists(IsRegexSpace, s);
    CollapseOfWeave(gaps, words);
  }

  /** The text that `cleanAndTrim` bounds: script blocks, style blocks,
      JavaScript-like and CSS-like fragments deleted in that order, then
      `TrimSpace`, then every `\s` run collapsed to one space. It has no
      leading or trailing `\s` byte and no two adjacent ones, and it is no
      longer than the input. */
  function Normalize(raw: Bytes): (n: Bytes)
    ensures |n| <= |raw|
    ensures NoRegexSpaceRun(n)
    ensures n != [] ==> !IsRegexSpace(n[0]) && !IsRegexSpace(n[|n| - 1])
  {
    var a := DeleteAll(Script, raw);
    var b := DeleteAll(Style, a);
    var c := DeleteAll(JsLike, b);
    var d := DeleteAll(CssLike, c);
    CollapseRegexSpaces(TrimSpace(d))
  }

  /** `cleanAndTrim(raw, minLen, maxLen)` of helpers.go: empty when the
      normalised text is shorter than `minLen`, otherwise its prefix of
      length `min(len, maxLen)`. */
  function CleanAndTrimFull(raw: Bytes, minLen: int, maxLen: nat): (r: Bytes)
    ensures r <= Normalize(raw)
    ensures |Normalize(raw)| < minLen ==> r == []
    ensures minLen <= |Normalize(raw)| ==> |r| == Min(|Normalize(raw)|, maxLen)
    ensures |r| <= maxLen && |r| <= |raw|
    ensures NoRegexSpaceRun(r) && (r != [] ==> !IsRegexSpace(r[0]))
  {
    var n := Normalize(raw);
    if |n| < minLen then []
    else if |n| > maxLen then n[..maxLen]
    else n
  }
}
