/** The pure part of scraper/product.go: its keyword list and predicate. */
module Product {
  import opened ByteStrings
  import opened Helpers

  /** `productKeywords`. */
  const ProductKeywords: seq<Bytes> := [
    "product", "products", "service", "services",
    "solution", "solutions", "offering", "offerings",
    "platform", "feature", "features"
  ]

  /** The keywords that decide a match on their own: every plural entry of
      `ProductKeywords` extends its singular. */
  const ProductStems: seq<Bytes> := ["product", "service", "solution", "offering", "platform", "feature"]

  /** `containsAnyKeyword(link, keywords)`: the same early-return search as
      `containsAny` in helpers.go, and it agrees with it on every input. */
  function ContainsAnyKeyword(link: Bytes, keywords: seq<Bytes>): (r: bool)
    ensures r == ContainsAny(link, keywords)
  {
    AnyKeywordIn(Lower(link), keywords)
  }

  /** With `productKeywords` a link matches iff its lower-cased form
      contains one of the six stems. */
  lemma {:induction false} ProductMatchIffStem(link: Bytes)
    ensures ContainsAnyKeyword(link, ProductKeywords)
            <==> exists j | 0 <= j < |ProductStems| :: IsSubstring(ProductStems[j], Lower(link))
  {
    var l := Lower(link);
    forall j | 0 <= j < |ProductKeywords| && IsSubstring(ProductKeywords[j], l)
      ensures exists m | 0 <= m < |ProductStems| :: IsSubstring(ProductStems[m], l)
    {
      if j == 1 {
        ExtensionSubsumed(ProductStems[0], ProductKeywords[1], l);
      } else if j == 3 {
        ExtensionSubsumed(ProductStems[1], ProductKeywords[3], l);
      } else if j == 5 {
        ExtensionSubsumed(ProductStems[2], ProductKeywords[5], l);
      } else if j == 7 {
        ExtensionSubsumed(ProductStems[3], ProductKeywords[7], l);
      } else if j == 10 {
        ExtensionSubsumed(ProductStems[5], ProductKeywords[10], l);
      } else {
        var m := if j == 0 then 0 else if j == 2 then 1 else if j == 4 then 2
                 else if j == 6 then 3 else if j == 8 then 4 else 5;
        assert ProductStems[m] == ProductKeywords[j];
      }
    }
    forall m | 0 <= m < |ProductStems| && IsSubstring(ProductStems[m], l)
      ensures exists j | 0 <= j < |ProductKeywords| :: IsSubstring(ProductKeywords[j], l)
    {
      var j := if m == 0 then 0 else if m == 1 then 2 else if m == 2 then 4
               else if m == 3 then 6 else if m == 4 then 8 else 9;
      assert ProductKeywords[j] == ProductStems[m];
    }
  }
}
