/** The RE2 regular expressions that the scraper deletes from page text,
    each written out as the length of the match that the leftmost-first
    matcher finds at the start of a string (0 when none starts there), and
    Go's `ReplaceAllString(s, "")` as a leftmost, non-overlapping deleter. */
module Regex {
  import opened ByteStrings

  /** The patterns whose matches are replaced by the empty string. */
  datatype Pattern =
    | Tag      // `(?is)<[^>]+>`
    | Script   // `(?s)<script.*?>.*?</script>`
    | Style    // `(?s)<style.*?>.*?</style>`
    | JsLike   // `(?i)(var|let|function)\s+\w+\s*=?\s*[\{\(]`
    | CssLike  // `(?i)\.\w+\s*\{`

  /** `s[i..j+1]` is `'<'`, one or more bytes other than `'>'`, then `'>'`. */
  ghost predicate TagAt(s: Bytes, i: int, j: int) {
    && 0 <= i && i + 1 < j < |s|
    && s[i] == '<' && s[j] == '>'
    && forall k | i < k < j :: s[k] != '>'
  }

  ghost predicate HasTag(s: Bytes) {
    exists i, j :: TagAt(s, i, j)
  }

  /** The match of `<[^>]+>` at the start of `s`: `[^>]+` is greedy and
      stops at the first `'>'`, which must exist and must not be `s[1]`. */
  function TagLen(s: Bytes): (n: nat)
    ensures n <= |s|
    ensures n > 0 ==> TagAt(s, 0, n - 1)
    ensures n == 0 ==> forall j :: !TagAt(s, 0, j)
  {
    if |s| < 3 || s[0] != '<' then 0
    else
      var g := IndexOfByte(s[1..], '>');
      assert forall k | 0 < k < g + 1 :: s[k] == s[1..][..g][k - 1];
      assert forall j | TagAt(s, 0, j) :: g < j && s[1..][j - 1] == '>';
      if 0 < g < |s| - 1 then g + 2 else 0
  }

  /** The end of the first occurrence of `k` in `s`, 0 when there is none
      (FindEndFirst). */
  function FindEnd(s: Bytes, k: Bytes): (e: nat)
    requires k != []
    ensures e <= |s|
    ensures e > 0 ==> |k| <= e && OccursAt(k, s, e - |k|)
    decreases |s|
  {
    if |s| < |k| then 0
    else if s[..|k|] == k then assert OccursAt(k, s, 0); |k|
    else
      var e := FindEnd(s[1..], k);
      if e == 0 then 0
      else
        OccursAtTail(k, s, e - |k|);
        e + 1
  }

  /** No occurrence of `k` ends before the one `FindEnd` finds, and there
      is none at all when it finds 0. */
  lemma {:induction false} FindEndFirst(s: Bytes, k: Bytes)
    requires k != []
    ensures var e := FindEnd(s, k);
      && (e > 0 ==> forall i | 0 <= i < e - |k| :: !OccursAt(k, s, i))
      && (e == 0 ==> forall i :: !OccursAt(k, s, i))
    decreases |s|
  {
    if |s| >= |k| && s[..|k|] != k {
      var e := FindEnd(s[1..], k);
      assert FindEnd(s, k) == if e == 0 then 0 else e + 1;
      FindEndFirst(s[1..], k);
      var n := if e == 0 then |s| else e - |k|;
      assert forall i | 0 <= i < n :: !OccursAt(k, s[1..], i);
      NoOccurrenceShift(k, s, n);
    }
  }

  /** No occurrence at index 0 and none in the tail before `n` means none
      in `s` before `n + 1`. */
  lemma NoOccurrenceShift(k: Bytes, s: Bytes, n: nat)
    requires s != [] && !OccursAt(k, s, 0)
    requires forall i | 0 <= i < n :: !OccursAt(k, s[1..], i)
    ensures forall i | 0 <= i < n + 1 :: !OccursAt(k, s, i)
  {
    forall i | 1 <= i < n + 1 ensures !OccursAt(k, s, i) {
      OccursAtTail(k, s, i - 1);
    }
  }

  /** The match of `open.*?>.*?close` at the start of `s` (dot matches
      newline): the first lazy group stops at the first `'>'` after `open`,
      the second at the first `close` after that. A later `'>'` cannot help
      when no `close` follows the first one, so there is no backtracking. */
  function BlockLen(s: Bytes, open: Bytes, close: Bytes): (n: nat)
    requires close != []
    ensures n <= |s|
    ensures n > 0 ==> && |open| <= |s| && s[..|open|] == open
                      && LazyCloseLen(s[|open|..], close) == n - |open| > 0
  {
    if |s| < |open| || s[..|open|] != open then 0
    else
      var m := LazyCloseLen(s[|open|..], close);
      if m == 0 then 0 else |open| + m
  }

  /** The match of `.*?>.*?close` at the start of `t`. */
  function LazyCloseLen(t: Bytes, close: Bytes): (m: nat)
    requires close != []
    ensures m <= |t|
    ensures m > 0 ==> 1 + |close| <= m && OccursAt(close, t, m - |close|)
    ensures m > 0 ==> '>' in t[..m - |close|]
  {
    var g := IndexOfByte(t, '>');
    if g == |t| then 0
    else
      var e := FindEnd(t[g + 1..], close);
      if e == 0 then 0
      else
        OccursAtShift(close, t, g + 1, e - |close|);
        assert t[..g + 1 + e - |close|][g] == '>';
        g + 1 + e
  }

  lemma OccursAtShift(k: Bytes, s: Bytes, d: nat, i: nat)
    requires d <= |s| && OccursAt(k, s[d..], i)
    ensures OccursAt(k, s, d + i)
  {
    assert s[d..][i..i + |k|] == s[d + i..d + i + |k|];
  }

  /** Length of the leading run of `\s` bytes. */
  function RegexSpaceSpan(s: Bytes): (n: nat)
    ensures n <= |s|
    ensures forall i | 0 <= i < n :: IsRegexSpace(s[i])
    ensures n < |s| ==> !IsRegexSpace(s[n])
  {
    if s == [] || !IsRegexSpace(s[0]) then 0 else 1 + RegexSpaceSpan(s[1..])
  }

  /** Length of the leading run of `\w` bytes. */
  function WordSpan(s: Bytes): (n: nat)
    ensures n <= |s|
    ensures forall i | 0 <= i < n :: IsWordByte(s[i])
    ensures n < |s| ==> !IsWordByte(s[n])
  {
    if s == [] || !IsWordByte(s[0]) then 0 else 1 + WordSpan(s[1..])
  }

  /** Length of the case-insensitive keyword `var`, `let` or `function` at
      the start of `s`, 0 when none. */
  function JsKeywordLen(s: Bytes): (n: nat)
    ensures n == 0 || n == 3 || n == 8
    ensures n <= |s|
  {
    if |s| >= 3 && (Lower(s[..3]) == "var" || Lower(s[..3]) == "let") then 3
    else if |s| >= 8 && Lower(s[..8]) == "function" then 8
    else 0
  }

  /** The match of `(var|let|function)\s+\w+\s*=?\s*[\{\(]` at the start of
      `s`. `\s` and `\w` are disjoint, so every run is taken whole. */
  function JsLikeLen(s: Bytes): (n: nat)
    ensures n <= |s|
    ensures n > 0 ==> 6 <= n && JsKeywordLen(s) > 0 && (s[n - 1] == '{' || s[n - 1] == '(')
  {
    var a := JsKeywordLen(s);
    if a == 0 then 0
    else
      var b := a + RegexSpaceSpan(s[a..]);
      if b == a then 0
      else
        var c := b + WordSpan(s[b..]);
        if c == b then 0
        else
          var d := c + RegexSpaceSpan(s[c..]);
          var d' := if d < |s| && s[d] == '=' then d + 1 else d;
          var e := d' + RegexSpaceSpan(s[d'..]);
          if e < |s| && (s[e] == '{' || s[e] == '(') then e + 1 else 0
  }

  /** The match of `\.\w+\s*\{` at the start of `s`. */
  function CssLikeLen(s: Bytes): (n: nat)
    ensures n <= |s|
    ensures n > 0 ==> 3 <= n && s[0] == '.' && IsWordByte(s[1]) && s[n - 1] == '{'
  {
    if s == [] || s[0] != '.' then 0
    else
      var w := 1 + WordSpan(s[1..]);
      if w == 1 then 0
      else
        var c := w + RegexSpaceSpan(s[w..]);
        if c < |s| && s[c] == '{' then c + 1 else 0
  }

  /** Length of the match of `p` that starts at the start of `s`, 0 when
      none does; no pattern has an empty match. */
  function MatchLen(p: Pattern, s: Bytes): (n: nat)
    ensures n <= |s|
    ensures n == 0 || 3 <= n
  {
    match p
    case Tag => TagLen(s)
    case Script => BlockLen(s, "<script", "</script>")
    case Style => BlockLen(s, "<style", "</style>")
    case JsLike => JsLikeLen(s)
    case CssLike => CssLikeLen(s)
  }

  /** `regexp.ReplaceAllString(s, "")`: scanning from the left, every
      match is deleted and the scan resumes after it; bytes where no match
      starts are kept. */
  function DeleteAll(p: Pattern, s: Bytes): (r: Bytes)
    ensures multiset(r) <= multiset(s)
    ensures |r| <= |s|
    decreases |s|
  {
    if s == [] then []
    else
      var n := MatchLen(p, s);
      if n > 0 then
        assert s == s[..n] + s[n..];
        DeleteAll(p, s[n..])
      else
        assert s == [s[0]] + s[1..];
        [s[0]] + DeleteAll(p, s[1..])
  }

  /** A string in which no match of `p` starts anywhere is left as it is. */
  lemma {:induction false} DeleteAllNoMatch(p: Pattern, s: Bytes)
    requires forall i | 0 <= i < |s| :: MatchLen(p, s[i..]) == 0
    ensures DeleteAll(p, s) == s
    decreases |s|
  {
    if s != [] {
      assert MatchLen(p, s[0..]) == 0 && s[0..] == s;
      NoMatchInTail(p, s);
      DeleteAllNoMatch(p, s[1..]);
    }
  }

  /** No match starts anywhere in the tail of a string in which no match
      starts anywhere. */
  lemma NoMatchInTail(p: Pattern, s: Bytes)
    requires s != [] && forall i | 0 <= i < |s| :: MatchLen(p, s[i..]) == 0
    ensures forall i | 0 <= i < |s| - 1 :: MatchLen(p, s[1..][i..]) == 0
  {
    forall i | 0 <= i < |s| - 1 ensures MatchLen(p, s[1..][i..]) == 0 {
      assert s[1..][i..] == s[i + 1..];
    }
  }
}
