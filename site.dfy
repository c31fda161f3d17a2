/** The web as the crawlers see it once fetching and DOM access are taken
    away: for every URL that fetches successfully, the text of its body and
    its anchors in document order. */
module Site {
  import opened ByteStrings

  /** One `a[href]` element: the raw attribute, and the absolute URL that
      the request resolves it to ("" when it cannot be resolved). */
  datatype Anchor = Anchor(href: Bytes, abs: Bytes)

  /** A fetched page: the text of its body and its anchors. */
  datatype Page = Page(text: Bytes, anchors: seq<Anchor>)

  /** The pages that fetch successfully, by URL; any other URL fails
      (timeout, error status, unreachable host) and yields no callback. */
  type Site = map<Bytes, Page>

  predicate Distinct<T(==)>(s: seq<T>) {
    forall i, j | 0 <= i < j < |s| :: s[i] != s[j]
  }

  /** Every string an anchor of the site carries, raw or resolved: all
      that a crawler can ever claim. */
  function Strings(site: Site): set<Bytes> {
    (set u, a | u in site && a in site[u].anchors :: a.href)
    + (set u, a | u in site && a in site[u].anchors :: a.abs)
  }

  lemma AnchorInStrings(site: Site, u: Bytes, k: int)
    requires u in site && 0 <= k < |site[u].anchors|
    ensures site[u].anchors[k].href in Strings(site)
    ensures site[u].anchors[k].abs in Strings(site)
  {
    var a := site[u].anchors[k];
    assert a in site[u].anchors;
  }

  /** Growing a subset of a finite universe shrinks what is left of it. */
  lemma RemainderShrinks<T>(universe: set<T>, a: set<T>, b: set<T>)
    requires a <= b <= universe && a != b
    ensures |universe - b| < |universe - a|
  {
    var x :| x in b && x !in a;
    assert universe - a == (universe - b) + (b - a);
    assert (universe - b) * (b - a) == {};
    assert x in b - a;
  }

  /** Moving the head of a worklist to the done list keeps their
      concatenation. */
  lemma MoveHead(done: seq<Bytes>, todo: seq<Bytes>)
    requires todo != []
    ensures (done + [todo[0]]) + todo[1..] == done + todo
  {
    assert todo == [todo[0]] + todo[1..];
  }

  /** Appending to the worklist appends to the concatenation. */
  lemma AppendTail(done: seq<Bytes>, todo: seq<Bytes>, x: Bytes)
    ensures done + (todo + [x]) == (done + todo) + [x]
  {
  }

  /** `x` is the resolved link of an anchor on one of the first `n` pages
      of `fetched`. */
  ghost predicate LinkedBefore(site: Site, fetched: seq<Bytes>, n: int, x: Bytes) {
    exists m, k | 0 <= m < n && m < |fetched| && fetched[m] in site && 0 <= k < |site[fetched[m]].anchors| ::
      site[fetched[m]].anchors[k].abs == x
  }

  /** Every URL of `order` after the first is the resolved link of an
      anchor on a page fetched before that URL's position. */
  ghost predicate Linked(site: Site, fetched: seq<Bytes>, order: seq<Bytes>) {
    forall n | 0 < n < |order| :: LinkedBefore(site, fetched, n, order[n])
  }

  /** Fetching one more page keeps every admitted URL linked. */
  lemma LinkedExtend(site: Site, fetched: seq<Bytes>, u: Bytes, order: seq<Bytes>)
    requires Linked(site, fetched, order)
    ensures Linked(site, fetched + [u], order)
  {
    var f := fetched + [u];
    forall n | 0 < n < |order| ensures LinkedBefore(site, f, n, order[n]) {
      assert LinkedBefore(site, fetched, n, order[n]);
      var m, k :| 0 <= m < n && m < |fetched| && fetched[m] in site && 0 <= k < |site[fetched[m]].anchors| &&
        site[fetched[m]].anchors[k].abs == order[n];
      assert f[m] == fetched[m];
    }
  }

  /** Admitting the resolved link of anchor `k` of the last fetched page,
      after everything admitted so far, keeps every admitted URL linked. */
  lemma LinkedAdmit(site: Site, fetched: seq<Bytes>, order: seq<Bytes>, k: int)
    requires Linked(site, fetched, order) && 0 < |fetched| <= |order|
    requires fetched[|fetched| - 1] in site && 0 <= k < |site[fetched[|fetched| - 1]].anchors|
    ensures Linked(site, fetched, order + [site[fetched[|fetched| - 1]].anchors[k].abs])
  {
    var o := order + [site[fetched[|fetched| - 1]].anchors[k].abs];
    forall n | 0 < n < |o| ensures LinkedBefore(site, fetched, n, o[n]) {
      if n < |order| {
        assert o[n] == order[n];
      }
    }
  }
}
