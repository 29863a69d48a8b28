/**
 * VestiaireScraper.search: reject a search without a brand or a category,
 * build the search URL by appending the present parameters, and hand it to
 * the Playwright or the requests walker, whichever the scraper was set up with.
 */
module Scraper {
  import opened Wrappers
  import opened Text
  import opened QueryBuilder
  import opened Extraction
  import opened PageWalkers

  /**
   * The search as a whole. `searched` is the URL handed to a walker, None when
   * the criteria are rejected before any page is asked for.
   */
  method Search(usePlaywright: bool, brand: Option<string>, category: Option<string>, subcategory: Option<string>,
                maxPages: int, browse: string -> BrowserSession, fetch: string -> Response)
    returns (res: Result<seq<Item>, Failure>, searched: Option<string>)
    ensures !ValidCriteria(brand, category) <==> res == Err(InvalidCriteria)
    ensures !ValidCriteria(brand, category) <==> searched == None
    ensures ValidCriteria(brand, category) ==> searched == Some(SearchUrl(brand, category, subcategory))
    ensures ValidCriteria(brand, category) && usePlaywright ==>
      var session := browse(SearchUrl(brand, category, subcategory));
      res == if session.Unloadable? then Err(LoadTimedOut)
             else Ok(PlaywrightWalk(session.pages, ExtractItem, 1, maxPages).items)
    ensures ValidCriteria(brand, category) && !usePlaywright ==>
      var w := RequestsWalk(SearchUrl(brand, category, subcategory), fetch, ExtractSoupItem, 1, maxPages);
      res == if w.stop == Some(GetRaised) then Err(RequestRaised) else Ok(w.items)
  {
    if !Given(brand) && !Given(category) {
      return Err(InvalidCriteria), None;
    }
    var queryParams: seq<string> := [];
    if Given(brand) {
      queryParams := queryParams + [DesignerParam(brand.value)];
    }
    if Given(category) {
      queryParams := queryParams + [CategoryParam(category.value)];
    }
    if Given(subcategory) {
      queryParams := queryParams + [SubcategoryParam(subcategory.value)];
    }
    assert queryParams == QueryParams(brand, category, subcategory);
    var url := SEARCH_URL + "?" + Join(queryParams, '&');
    searched := Some(url);
    if usePlaywright {
      var visits;
      res, visits := SearchWithPlaywright(url, maxPages, browse, ExtractItem);
    } else {
      var requested;
      res, requested := SearchWithRequests(url, maxPages, fetch, ExtractSoupItem);
    }
  }

  /** Every card a bs4 page lists gives a full record: the requests path never produces `{}`. */
  lemma {:induction false} SoupHarvestIsRecords(fetch: string -> Response, urls: seq<string>)
    ensures forall k :: 0 <= k < |Harvest(fetch, ExtractSoupItem, urls)| ==> Harvest(fetch, ExtractSoupItem, urls)[k].Record?
  {
    if urls != [] {
      SoupHarvestIsRecords(fetch, urls[1..]);
      var head := PageItems(fetch, ExtractSoupItem, urls[0]);
      var tail := Harvest(fetch, ExtractSoupItem, urls[1..]);
      forall k | 0 <= k < |head| ensures head[k].Record? {
        SoupItemIsRecord(fetch(urls[0]).cards[k]);
      }
      assert Harvest(fetch, ExtractSoupItem, urls) == head + tail;
    }
  }

  /** A requests search that succeeds returns only full records. */
  lemma RequestsSearchRecords(url: string, fetch: string -> Response, maxPages: int)
    ensures var w := RequestsWalk(url, fetch, ExtractSoupItem, 1, maxPages);
      forall k :: 0 <= k < |w.items| ==> w.items[k].Record?
  {
    RequestsItems(url, fetch, ExtractSoupItem, 1, maxPages);
    SoupHarvestIsRecords(fetch, RequestsWalk(url, fetch, ExtractSoupItem, 1, maxPages).log);
  }
}
