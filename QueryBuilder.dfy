/**
 * The search URL of VestiaireScraper.search: criteria validation and the
 * query string built from the designer, category and subcategory criteria.
 */
module QueryBuilder {
  import opened Wrappers
  import opened Text

  const BASE_URL := "https://www.vestiairecollective.com"
  const SEARCH_URL := BASE_URL + "/search"

  /** Python truthiness of an optional string: None and "" are both false. */
  predicate Given(s: Option<string>) {
    s.Some? && s.value != ""
  }

  /** A search needs a brand or a category; a subcategory alone is not enough. */
  predicate ValidCriteria(brand: Option<string>, category: Option<string>) {
    Given(brand) || Given(category)
  }

  /** The brand with its spaces turned into '+', and nothing else escaped. */
  function DesignerParam(brand: string): string {
    "designer=" + ReplaceChar(brand, ' ', '+')
  }

  function CategoryParam(category: string): string {
    "category=" + Lower(category)
  }

  function SubcategoryParam(subcategory: string): string {
    "subcategory=" + Lower(subcategory)
  }

  /** The parameters appended for the given criteria, always in the order designer, category, subcategory. */
  function QueryParams(brand: Option<string>, category: Option<string>, subcategory: Option<string>): (ps: seq<string>)
    ensures |ps| == (if Given(brand) then 1 else 0) + (if Given(category) then 1 else 0) + (if Given(subcategory) then 1 else 0)
    ensures ps != [] <==> Given(brand) || Given(category) || Given(subcategory)
    ensures Given(brand) ==> ps[0] == DesignerParam(brand.value)
    ensures Given(category) ==> ps[if Given(brand) then 1 else 0] == CategoryParam(category.value)
    ensures Given(subcategory) ==> ps[|ps| - 1] == SubcategoryParam(subcategory.value)
  {
    (if Given(brand) then [DesignerParam(brand.value)] else [])
    + (if Given(category) then [CategoryParam(category.value)] else [])
    + (if Given(subcategory) then [SubcategoryParam(subcategory.value)] else [])
  }

  /** SEARCH_URL, a '?', and the parameters joined by '&'. */
  function SearchUrl(brand: Option<string>, category: Option<string>, subcategory: Option<string>): (url: string)
    ensures StartsWith(url, SEARCH_URL + "?")
  {
    SEARCH_URL + "?" + Join(QueryParams(brand, category, subcategory), '&')
  }

  // ---------------------------------------------------------------------------
  // What the URL tells a reader
  // ---------------------------------------------------------------------------

  /** The designer value reads back as the brand, as long as the brand has no '+' of its own. */
  lemma DesignerRoundTrip(brand: string)
    requires '+' !in brand
    ensures var v := DesignerParam(brand)[|"designer="|..]; ReplaceChar(v, '+', ' ') == brand
  {
    assert DesignerParam(brand)[|"designer="|..] == ReplaceChar(brand, ' ', '+');
    ReplaceCharRoundTrip(brand, ' ', '+');
  }

  lemma NoAmpersandInParams(brand: Option<string>, category: Option<string>, subcategory: Option<string>)
    requires brand.Some? ==> '&' !in brand.value
    requires category.Some? ==> '&' !in category.value
    requires subcategory.Some? ==> '&' !in subcategory.value
    ensures forall k :: 0 <= k < |QueryParams(brand, category, subcategory)| ==> '&' !in QueryParams(brand, category, subcategory)[k]
  {
    if Given(brand) {
      ReplaceKeepsAbsent(brand.value, ' ', '+', '&');
      assert '&' !in DesignerParam(brand.value);
    }
    if Given(category) {
      LowerKeepsAbsent(category.value, '&');
      assert '&' !in CategoryParam(category.value);
    }
    if Given(subcategory) {
      LowerKeepsAbsent(subcategory.value, '&');
      assert '&' !in SubcategoryParam(subcategory.value);
    }
  }

  /**
   * Splitting the query of a valid search at '&' gives back exactly the
   * parameters, in order, as long as no criterion holds a '&' itself (nothing
   * is URL-escaped, so one that does would break the query apart).
   */
  lemma SearchUrlParts(brand: Option<string>, category: Option<string>, subcategory: Option<string>)
    requires ValidCriteria(brand, category)
    requires brand.Some? ==> '&' !in brand.value
    requires category.Some? ==> '&' !in category.value
    requires subcategory.Some? ==> '&' !in subcategory.value
    ensures var url := SearchUrl(brand, category, subcategory);
      StartsWith(url, SEARCH_URL + "?")
      && Split(url[|SEARCH_URL + "?"|..], '&') == QueryParams(brand, category, subcategory)
  {
    var ps := QueryParams(brand, category, subcategory);
    var url := SearchUrl(brand, category, subcategory);
    assert url[|SEARCH_URL + "?"|..] == Join(ps, '&');
    NoAmpersandInParams(brand, category, subcategory);
    SplitJoin(ps, '&');
  }

  /** A two-word brand such as "Louis Vuitton" becomes "designer=Louis+Vuitton". */
  lemma TwoWordDesigner(first: string, second: string)
    requires ' ' !in first && ' ' !in second
    ensures DesignerParam(first + " " + second) == "designer=" + first + "+" + second
  {
    var s := first + " " + second;
    var r := ReplaceChar(s, ' ', '+');
    forall k | 0 <= k < |s|
      ensures r[k] == (first + "+" + second)[k]
    {
      if k < |first| {
        assert s[k] == first[k] && first[k] in first;
      } else if k > |first| {
        assert s[k] == second[k - |first| - 1] && second[k - |first| - 1] in second;
      }
    }
    assert r == first + "+" + second;
  }
}
