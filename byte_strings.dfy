/** Go strings as byte sequences, with the ASCII behaviour of the `strings`
    package functions the scraper uses (ToLower, Contains, TrimSpace). */
module ByteStrings {

  /** One byte of a Go string. */
  type Byte = c: char | c as int < 256 witness 'a'

  type Bytes = seq<Byte>

  function Min(a: int, b: int): int { if a <= b then a else b }

  /** The ASCII space set of Go's `strings.TrimSpace` and `strings.Fields`. */
  predicate IsSpace(c: Byte) {
    c == '\t' || c == '\n' || c == '\U{000B}' || c == '\U{000C}' || c == '\r' || c == ' '
  }

  /** RE2's `\s` class: `[\t\n\f\r ]` (no vertical tab). */
  predicate IsRegexSpace(c: Byte) {
    c == '\t' || c == '\n' || c == '\U{000C}' || c == '\r' || c == ' '
  }

  /** RE2's `\w` class: `[0-9A-Za-z_]`. */
  predicate IsWordByte(c: Byte) {
    ('0' <= c <= '9') || ('A' <= c <= 'Z') || ('a' <= c <= 'z') || c == '_'
  }

  function LowerByte(c: Byte): (d: Byte)
    ensures !('A' <= d <= 'Z')
    ensures !('A' <= c <= 'Z') ==> d == c
  {
    if 'A' <= c <= 'Z' then (c as int + 32) as char else c
  }

  /** `strings.ToLower` restricted to ASCII: every upper-case letter is
      mapped to its lower-case form, every other byte is kept. */
  function Lower(s: Bytes): (r: Bytes)
    ensures |r| == |s|
    ensures forall i | 0 <= i < |s| :: r[i] == LowerByte(s[i])
  {
    if s == [] then [] else [LowerByte(s[0])] + Lower(s[1..])
  }

  lemma LowerIdempotent(s: Bytes)
    ensures Lower(Lower(s)) == Lower(s)
  {
    var l := Lower(s);
    assert forall i | 0 <= i < |l| :: LowerByte(l[i]) == l[i];
  }

  /** `k` occurs in `s` starting at index `i`. */
  predicate OccursAt(k: Bytes, s: Bytes, i: int) {
    0 <= i && i + |k| <= |s| && s[i..i + |k|] == k
  }

  /** Occurrences in the tail of `s` are the occurrences in `s` after
      index 0, shifted by one. */
  lemma OccursAtTail(k: Bytes, s: Bytes, i: nat)
    requires s != []
    ensures OccursAt(k, s, i + 1) <==> OccursAt(k, s[1..], i)
  {
    if i + 1 + |k| <= |s| {
      assert s[1..][i..i + |k|] == s[i + 1..i + 1 + |k|];
    }
  }

  /** `k` occurs in `s` as a contiguous block. */
  ghost predicate IsSubstring(k: Bytes, s: Bytes) {
    exists i :: OccursAt(k, s, i)
  }

  /** `strings.Contains(s, k)`: a left-to-right search. */
  function Contains(s: Bytes, k: Bytes): (r: bool)
    ensures r <==> IsSubstring(k, s)
    decreases |s|
  {
    if |k| > |s| then false
    else if s[..|k|] == k then assert OccursAt(k, s, 0); true
    else
      var r := Contains(s[1..], k);
      assert r <== IsSubstring(k, s) by {
        if IsSubstring(k, s) {
          var i :| OccursAt(k, s, i);
          assert i != 0;
          assert s[1..][i - 1..i - 1 + |k|] == k;
          assert OccursAt(k, s[1..], i - 1);
        }
      }
      assert r ==> IsSubstring(k, s) by {
        if r {
          var i :| OccursAt(k, s[1..], i);
          assert s[i + 1..i + 1 + |k|] == k;
          assert OccursAt(k, s, i + 1);
        }
      }
      r
  }

  /** A block of `s` is a block of any string that has `s` as a block. */
  lemma SubstringTransitive(k: Bytes, s: Bytes, t: Bytes)
    requires IsSubstring(k, s) && IsSubstring(s, t)
    ensures IsSubstring(k, t)
  {
    var i :| OccursAt(k, s, i);
    var j :| OccursAt(s, t, j);
    forall m | 0 <= m < |k|
      ensures t[j + i..j + i + |k|][m] == k[m]
    {
      assert t[j + i + m] == t[j..j + |s|][i + m] == s[i + m] == s[i..i + |k|][m];
    }
    assert t[j + i..j + i + |k|] == k;
    assert OccursAt(k, t, j + i);
  }

  /** A keyword that extends `short` can only occur where `short` does. */
  lemma ExtensionSubsumed(short: Bytes, long: Bytes, s: Bytes)
    requires |short| <= |long| && long[..|short|] == short
    requires IsSubstring(long, s)
    ensures IsSubstring(short, s)
  {
    PrefixIsSubstring(short, long);
    SubstringTransitive(short, long, s);
  }

  /** `k` is a block of every string that starts with `k`. */
  lemma PrefixIsSubstring(k: Bytes, s: Bytes)
    requires |k| <= |s| && s[..|k|] == k
    ensures IsSubstring(k, s)
  {
    assert OccursAt(k, s, 0);
  }

  predicate AllSpace(s: Bytes) {
    forall i | 0 <= i < |s| :: IsSpace(s[i])
  }

  /** Number of leading bytes of `s` in Go's ASCII space set. */
  function LeadingSpaces(s: Bytes): (n: nat)
    ensures n <= |s|
    ensures forall i | 0 <= i < n :: IsSpace(s[i])
    ensures n < |s| ==> !IsSpace(s[n])
  {
    if s == [] || !IsSpace(s[0]) then 0 else 1 + LeadingSpaces(s[1..])
  }

  /** Number of trailing bytes of `s` in Go's ASCII space set. */
  function TrailingSpaces(s: Bytes): (n: nat)
    ensures n <= |s|
    ensures forall i | |s| - n <= i < |s| :: IsSpace(s[i])
    ensures n < |s| ==> !IsSpace(s[|s| - 1 - n])
  {
    if s == [] || !IsSpace(s[|s| - 1]) then 0 else 1 + TrailingSpaces(s[..|s| - 1])
  }

  /** `strings.TrimSpace` on ASCII: the input is `pre + r + post` where
      `pre` and `post` are all space and `r` neither starts nor ends with
      space. */
  function TrimSpace(s: Bytes): (r: Bytes)
    ensures |r| <= |s|
    ensures exists a :: OccursAt(r, s, a) && AllSpace(s[..a]) && AllSpace(s[a + |r|..])
    ensures r != [] ==> !IsSpace(r[0]) && !IsSpace(r[|r| - 1])
    ensures AllSpace(s) ==> r == []
  {
    var a := LeadingSpaces(s);
    var t := s[a..];
    var b := TrailingSpaces(t);
    var r := t[..|t| - b];
    assert OccursAt(r, s, a);
    assert AllSpace(s[..a]);
    assert s[a + |r|..] == t[|t| - b..];
    assert AllSpace(t[|t| - b..]);
    assert r != [] ==> r[0] == s[a] && r[|r| - 1] == t[|t| - 1 - b];
    assert AllSpace(s) ==> a == |s|;
    r
  }

  /** Go's `strings.Index` for one byte: the first position of `c`, or
      `|s|` when `c` does not occur. */
  function IndexOfByte(s: Bytes, c: Byte): (n: nat)
    ensures n <= |s|
    ensures c !in s[..n]
    ensures n < |s| ==> s[n] == c
  {
    if s == [] || s[0] == c then 0
    else
      var n := 1 + IndexOfByte(s[1..], c);
      assert s[..n] == [s[0]] + s[1..][..n - 1];
      n
  }

  predicate NoSpace(s: Bytes) {
    forall i | 0 <= i < |s| :: !IsSpace(s[i])
  }

  /** Length of the leading run of non-space bytes. */
  function TokenLen(s: Bytes): (n: nat)
    ensures n <= |s|
    ensures NoSpace(s[..n])
    ensures n < |s| ==> IsSpace(s[n])
  {
    if s == [] || IsSpace(s[0]) then 0
    else
      var n := 1 + TokenLen(s[1..]);
      assert s[..n] == [s[0]] + s[1..][..n - 1];
      n
  }

  /** `strings.Fields` on ASCII: the maximal runs of non-space bytes, in
      order. */
  function Fields(s: Bytes): (fs: seq<Bytes>)
    ensures forall i | 0 <= i < |fs| :: fs[i] != [] && NoSpace(fs[i])
    decreases |s|
  {
    if s == [] then []
    else if IsSpace(s[0]) then Fields(s[1..])
    else
      var n := TokenLen(s);
      [s[..n]] + Fields(s[n..])
  }

  /** `strings.Join(fs, sep)`. */
  function Join(fs: seq<Bytes>, sep: Bytes): Bytes {
    if fs == [] then []
    else if |fs| == 1 then fs[0]
    else fs[0] + sep + Join(fs[1..], sep)
  }

  /** No leading or trailing space, no two adjacent spaces, and the only
      space byte is `' '`. */
  predicate SingleSpaced(s: Bytes) {
    && (s != [] ==> !IsSpace(s[0]) && !IsSpace(s[|s| - 1]))
    && (forall i | 0 <= i < |s| :: IsSpace(s[i]) ==> s[i] == ' ')
    && (forall i | 0 <= i < |s| - 1 :: !(IsSpace(s[i]) && IsSpace(s[i + 1])))
  }

  /** Joining non-empty space-free tokens with one space gives a
      single-spaced string. */
  lemma {:induction false} JoinSingleSpaced(fs: seq<Bytes>)
    requires forall i | 0 <= i < |fs| :: fs[i] != [] && NoSpace(fs[i])
    ensures SingleSpaced(Join(fs, " "))
  {
    if |fs| > 1 {
      JoinSingleSpaced(fs[1..]);
      var t, j := fs[0], Join(fs[1..], " ");
      var r := t + " " + j;
      assert j != [];
      forall i | 0 <= i < |r| - 1
        ensures !(IsSpace(r[i]) && IsSpace(r[i + 1]))
      {
        if i < |t| {
        } else if i == |t| {
          assert r[i + 1] == j[0];
        } else {
          assert r[i] == j[i - |t| - 1] && r[i + 1] == j[i - |t|];
        }
      }
      forall i | 0 <= i < |r| && IsSpace(r[i])
        ensures r[i] == ' '
      {
        if i > |t| {
          assert r[i] == j[i - |t| - 1];
        }
      }
      assert r[|r| - 1] == j[|j| - 1];
    }
  }

  /** A string that starts with the non-empty space-free token `t`
      followed by a space or the end splits into `t` and the fields of the
      rest. */
  lemma FieldsOfToken(t: Bytes, rest: Bytes)
    requires t != [] && NoSpace(t)
    requires rest == [] || IsSpace(rest[0])
    ensures Fields(t + rest) == [t] + Fields(rest)
  {
    var s := t + rest;
    var n := TokenLen(s);
    assert forall i | 0 <= i < |t| :: s[i] == t[i];
    assert |s| > |t| ==> IsSpace(s[|t|]) && s[..n][..] == s[..n];
    assert n == |t|;
    assert s[..n] == t && s[n..] == rest;
  }

  /** Fields undoes a single-space Join of non-empty space-free tokens. */
  lemma {:induction false} FieldsOfJoin(fs: seq<Bytes>)
    requires forall i | 0 <= i < |fs| :: fs[i] != [] && NoSpace(fs[i])
    ensures Fields(Join(fs, " ")) == fs
  {
    if fs == [] {
    } else if |fs| == 1 {
      FieldsOfToken(fs[0], []);
      assert fs[0] + [] == fs[0];
    } else {
      var j := Join(fs[1..], " ");
      FieldsOfJoin(fs[1..]);
      assert fs[0] + " " + j == fs[0] + (" " + j);
      FieldsOfToken(fs[0], " " + j);
      assert (" " + j)[1..] == j;
      assert fs == [fs[0]] + fs[1..];
    }
  }

  /** Every byte of the fields of `s` joined by one space is a space or a
      byte of `s`. */
  lemma {:induction false} JoinFieldsBytes(s: Bytes, c: Byte)
    requires c in Join(Fields(s), " ")
    ensures c == ' ' || c in s
    decreases |s|
  {
    if s == [] {
    } else if IsSpace(s[0]) {
      JoinFieldsBytes(s[1..], c);
    } else {
      var n := TokenLen(s);
      var t, fs := s[..n], Fields(s[n..]);
      assert Fields(s) == [t] + fs;
      if fs == [] {
        assert Join(Fields(s), " ") == t;
      } else {
        assert Join(Fields(s), " ") == t + " " + Join(fs, " ");
        if c !in t && c != ' ' {
          JoinFieldsBytes(s[n..], c);
        }
      }
    }
  }

  /** `gaps[0] + words[0] + gaps[1] + ... + words[n-1] + gaps[n]`. */
  function Weave(gaps: seq<Bytes>, words: seq<Bytes>): Bytes
    requires |gaps| == |words| + 1
    decreases |words|
  {
    if words == [] then gaps[0] else gaps[0] + words[0] + Weave(gaps[1..], words[1..])
  }

  /** `gaps` and `words` split a string at the bytes that `sp` accepts:
      every gap is made of such bytes and every gap between two words is
      non-empty; every word is non-empty and has none of them. */
  ghost predicate SplitAt(sp: Byte -> bool, gaps: seq<Bytes>, words: seq<Bytes>) {
    && |gaps| == |words| + 1
    && (forall i, j | 0 <= i < |gaps| && 0 <= j < |gaps[i]| :: sp(gaps[i][j]))
    && (forall i | 0 < i < |words| :: gaps[i] != [])
    && (forall i | 0 <= i < |words| :: words[i] != [])
    && (forall i, j | 0 <= i < |words| && 0 <= j < |words[i]| :: !sp(words[i][j]))
  }

  /** A byte of the class joins the first gap. */
  lemma ConsGap(sp: Byte -> bool, x: Byte, gaps: seq<Bytes>, words: seq<Bytes>)
    requires SplitAt(sp, gaps, words) && sp(x)
    ensures SplitAt(sp, [[x] + gaps[0]] + gaps[1..], words)
    ensures Weave([[x] + gaps[0]] + gaps[1..], words) == [x] + Weave(gaps, words)
  {
    var g := [[x] + gaps[0]] + gaps[1..];
    if words != [] {
      assert Weave(g, words) == ([x] + gaps[0]) + words[0] + Weave(gaps[1..], words[1..]);
    }
  }

  /** A byte outside the class joins a first word that no gap precedes. */
  lemma ConsWord(sp: Byte -> bool, x: Byte, gaps: seq<Bytes>, words: seq<Bytes>)
    requires SplitAt(sp, gaps, words) && !sp(x) && words != [] && gaps[0] == []
    ensures SplitAt(sp, gaps, [[x] + words[0]] + words[1..])
    ensures Weave(gaps, [[x] + words[0]] + words[1..]) == [x] + Weave(gaps, words)
  {
    var w := [[x] + words[0]] + words[1..];
    assert Weave(gaps, w) == [] + ([x] + words[0]) + Weave(gaps[1..], words[1..]);
    assert Weave(gaps, words) == [] + words[0] + Weave(gaps[1..], words[1..]);
  }

  /** A byte outside the class before a gap, or before nothing, starts a
      new word. */
  lemma ConsNewWord(sp: Byte -> bool, x: Byte, gaps: seq<Bytes>, words: seq<Bytes>)
    requires SplitAt(sp, gaps, words) && !sp(x) && (words == [] || gaps[0] != [])
    ensures SplitAt(sp, [[]] + gaps, [[x]] + words)
    ensures Weave([[]] + gaps, [[x]] + words) == [x] + Weave(gaps, words)
  {
    var g, w := [[]] + gaps, [[x]] + words;
    assert g[1..] == gaps && w[1..] == words;
  }

  /** Every string splits at the bytes of any class. */
  lemma {:induction false} SplitExists(sp: Byte -> bool, s: Bytes) returns (gaps: seq<Bytes>, words: seq<Bytes>)
    ensures SplitAt(sp, gaps, words) && Weave(gaps, words) == s
    decreases |s|
  {
    if s == [] {
      gaps, words := [[]], [];
    } else {
      var g, w := SplitExists(sp, s[1..]);
      var x := s[0];
      if sp(x) {
        ConsGap(sp, x, g, w);
        gaps, words := [[x] + g[0]] + g[1..], w;
      } else if w != [] && g[0] == [] {
        ConsWord(sp, x, g, w);
        gaps, words := g, [[x] + w[0]] + w[1..];
      } else {
        ConsNewWord(sp, x, g, w);
        gaps, words := [[]] + g, [[x]] + w;
      }
      assert s == [x] + s[1..];
    }
  }

  /** Leading space bytes do not change the fields. */
  lemma {:induction false} FieldsAfterSpaces(g: Bytes, t: Bytes)
    requires AllSpace(g)
    ensures Fields(g + t) == Fields(t)
    decreases |g|
  {
    if g != [] {
      assert (g + t)[1..] == g[1..] + t;
      FieldsAfterSpaces(g[1..], t);
    } else {
      assert g + t == t;
    }
  }

  /** `strings.Fields` returns exactly the words of any split of the
      string at space bytes: the maximal runs of non-space bytes, in
      order. */
  lemma {:induction false} FieldsOfWeave(gaps: seq<Bytes>, words: seq<Bytes>)
    requires SplitAt(IsSpace, gaps, words)
    ensures Fields(Weave(gaps, words)) == words
    decreases |words|
  {
    assert AllSpace(gaps[0]) by {
      forall j | 0 <= j < |gaps[0]| ensures IsSpace(gaps[0][j]) {
        assert IsSpace(gaps[0][j]);
      }
    }
    if words == [] {
      assert gaps[0] + [] == gaps[0];
      FieldsAfterSpaces(gaps[0], []);
    } else {
      var rest := Weave(gaps[1..], words[1..]);
      assert Weave(gaps, words) == gaps[0] + (words[0] + rest);
      FieldsAfterSpaces(gaps[0], words[0] + rest);
      assert NoSpace(words[0]) by {
        forall j | 0 <= j < |words[0]| ensures !IsSpace(words[0][j]) {
          assert !IsSpace(words[0][j]);
        }
      }
      if |words| > 1 {
        assert rest == gaps[1] + words[1] + Weave(gaps[2..], words[2..]);
        assert gaps[1] != [] && rest[0] == gaps[1][0] && IsSpace(gaps[1][0]);
      } else {
        assert rest == gaps[1];
        assert rest != [] ==> IsSpace(rest[0]);
      }
      FieldsOfToken(words[0], rest);
      FieldsOfWeave(gaps[1..], words[1..]);
      assert words == [words[0]] + words[1..];
    }
  }

  /** The fields of any string are the words of a split of it at space
      bytes. */
  lemma FieldsSplit(s: Bytes)
    ensures exists gaps :: SplitAt(IsSpace, gaps, Fields(s)) && Weave(gaps, Fields(s)) == s
  {
    var gaps, words := SplitExists(IsSpace, s);
    FieldsOfWeave(gaps, words);
  }
}
