/**
 * The two page loops of VestiaireScraper: _search_with_requests fetches
 * `url&page=n` for n = 1, 2, ... and _search_with_playwright clicks through a
 * browser session. Each is a method with a loop, proved against a recursive
 * specification built from one-page steps. The per-card extractor is a
 * parameter: the search passes ExtractSoupItem to the first and ExtractItem
 * to the second.
 */
module PageWalkers {
  import opened Wrappers
  import opened Text
  import opened Extraction

  /** The exceptions that escape a search instead of a list of items. */
  datatype Failure =
    | InvalidCriteria  // ValueError: neither brand nor category
    | RequestRaised    // session.get raised (connection error, timeout)
    | LoadTimedOut     // goto(url) or the first wait_for_selector(".product-card") raised

  /**
   * The inner loop of both walkers: one item per card appended, in card order
   * (the extractors never raise, so no card is skipped).
   */
  method AppendItems<C>(items: seq<Item>, cards: seq<C>, extract: C -> Item) returns (r: seq<Item>)
    ensures r == items + MapSeq(extract, cards)
  {
    r := items;
    for j := 0 to |cards|
      invariant r == items + MapSeq(extract, cards[..j])
    {
      MapSnoc(extract, cards, j);
      r := r + [extract(cards[j])];
    }
    assert cards[..|cards|] == cards;
  }

  /**
   * A walk over pages: the items gathered, a log of what was asked of the
   * backend, and why it stopped (None: it ran out of pages to visit).
   */
  datatype Walk<L, S> = Walk(items: seq<Item>, log: seq<L>, stop: Option<S>)

  function Unit<L, S>(): Walk<L, S> {
    Walk([], [], None)
  }

  /** `a` followed by `b`, unless `a` stopped. */
  function Then<L, S>(a: Walk<L, S>, b: Walk<L, S>): Walk<L, S> {
    if a.stop.Some? then a else Walk(a.items + b.items, a.log + b.log, b.stop)
  }

  lemma ThenAssoc<L, S>(a: Walk<L, S>, b: Walk<L, S>, c: Walk<L, S>)
    ensures Then(Then(a, b), c) == Then(a, Then(b, c))
  {
    if a.stop.None? && b.stop.None? {
      assert (a.items + b.items) + c.items == a.items + (b.items + c.items);
      assert (a.log + b.log) + c.log == a.log + (b.log + c.log);
    }
  }

  /** How many of the pages n, n + 1, ..., maxPages there are. */
  function PageCount(n: int, maxPages: int): nat {
    if n <= maxPages then maxPages - n + 1 else 0
  }

  // ---------------------------------------------------------------------------
  // requests
  // ---------------------------------------------------------------------------

  /** What session.get gives for a URL: a status and the parsed cards, or an exception. */
  datatype Response = Reply(status: int, cards: seq<SoupCard>) | Raised

  datatype RequestsStop = HttpError(status: int) | NoCards | GetRaised

  function PageUrl(url: string, n: nat): string {
    url + "&page=" + ShowNat(n)
  }

  /** Why a response ends the walk; None for a 200 with at least one card. */
  function StopOf(r: Response): Option<RequestsStop> {
    match r
    case Raised => Some(GetRaised)
    case Reply(status, cards) =>
      if status != 200 then Some(HttpError(status))
      else if cards == [] then Some(NoCards)
      else None
  }

  /** The items a fetched URL contributes. */
  function PageItems(fetch: string -> Response, extract: SoupCard -> Item, u: string): seq<Item> {
    if StopOf(fetch(u)).None? then MapSeq(extract, fetch(u).cards) else []
  }

  /** The cards of every listed page, page after page and card after card. */
  function Harvest(fetch: string -> Response, extract: SoupCard -> Item, urls: seq<string>): seq<Item> {
    if urls == [] then [] else PageItems(fetch, extract, urls[0]) + Harvest(fetch, extract, urls[1..])
  }

  function RequestsPage(url: string, fetch: string -> Response, extract: SoupCard -> Item, n: nat): Walk<string, RequestsStop> {
    var u := PageUrl(url, n);
    Walk(PageItems(fetch, extract, u), [u], StopOf(fetch(u)))
  }

  /**
   * Pages n..maxPages as _search_with_requests walks them: page k is fetched
   * at `url&page=k` only after every earlier page came back 200 with cards.
   */
  function RequestsWalk(url: string, fetch: string -> Response, extract: SoupCard -> Item, n: nat, maxPages: int)
    : (w: Walk<string, RequestsStop>)
    ensures w.log != [] <==> n <= maxPages
    decreases PageCount(n, maxPages)
  {
    if n > maxPages then
      Unit()
    else
      var page := RequestsPage(url, fetch, extract, n);
      if page.stop.Some? then page else Then(page, RequestsWalk(url, fetch, extract, n + 1, maxPages))
  }

  /**
   * The pages fetched are `url&page=n`, `url&page=n+1`, ... in order, all of
   * them up to maxPages unless one stopped the walk, and then it is the last.
   */
  lemma RequestsLog(url: string, fetch: string -> Response, extract: SoupCard -> Item, n: nat, maxPages: int)
    ensures var w := RequestsWalk(url, fetch, extract, n, maxPages);
      && |w.log| <= PageCount(n, maxPages)
      && (w.stop.None? ==> |w.log| == PageCount(n, maxPages))
      && (forall k :: 0 <= k < |w.log| ==> w.log[k] == PageUrl(url, n + k))
      && (w.stop.Some? ==> w.log != [] && w.stop == StopOf(fetch(w.log[|w.log| - 1])))
  {
    RequestsUrls(url, fetch, extract, n, maxPages);
    RequestsStopsAtLast(url, fetch, extract, n, maxPages);
  }

  /** How many pages the requests walk fetches, and at which URLs. */
  lemma {:induction false} RequestsUrls(url: string, fetch: string -> Response, extract: SoupCard -> Item, n: nat, maxPages: int)
    ensures var w := RequestsWalk(url, fetch, extract, n, maxPages);
      && |w.log| <= PageCount(n, maxPages)
      && (w.stop.None? ==> |w.log| == PageCount(n, maxPages))
      && (forall k :: 0 <= k < |w.log| ==> w.log[k] == PageUrl(url, n + k))
    decreases PageCount(n, maxPages)
  {
    if n <= maxPages {
      var page := RequestsPage(url, fetch, extract, n);
      if page.stop.None? {
        RequestsUrls(url, fetch, extract, n + 1, maxPages);
        var rest := RequestsWalk(url, fetch, extract, n + 1, maxPages);
        var w := RequestsWalk(url, fetch, extract, n, maxPages);
        assert w.log == [PageUrl(url, n)] + rest.log && w.stop == rest.stop;
        assert forall k :: 1 <= k < |w.log| ==> w.log[k] == rest.log[k - 1];
      }
    }
  }

  /** A requests walk that stopped did so at the last page it fetched. */
  lemma {:induction false} RequestsStopsAtLast(url: string, fetch: string -> Response, extract: SoupCard -> Item, n: nat, maxPages: int)
    ensures var w := RequestsWalk(url, fetch, extract, n, maxPages);
      w.stop.Some? ==> w.log != [] && w.stop == StopOf(fetch(w.log[|w.log| - 1]))
    decreases PageCount(n, maxPages)
  {
    if n <= maxPages {
      var page := RequestsPage(url, fetch, extract, n);
      if page.stop.None? {
        RequestsStopsAtLast(url, fetch, extract, n + 1, maxPages);
        var rest := RequestsWalk(url, fetch, extract, n + 1, maxPages);
        var w := RequestsWalk(url, fetch, extract, n, maxPages);
        assert w.log == page.log + rest.log && w.stop == rest.stop;
        if rest.stop.Some? {
          assert w.log[|w.log| - 1] == rest.log[|rest.log| - 1];
        }
      }
    }
  }

  /** Every page fetched came back 200 with cards, except the one the walk stopped at. */
  predicate ServedPagesGood(fetch: string -> Response, w: Walk<string, RequestsStop>) {
    forall k :: 0 <= k < |w.log| && (w.stop.None? || k < |w.log| - 1) ==> StopOf(fetch(w.log[k])).None?
  }

  lemma {:induction false} RequestsGoodPages(url: string, fetch: string -> Response, extract: SoupCard -> Item, n: nat, maxPages: int)
    ensures ServedPagesGood(fetch, RequestsWalk(url, fetch, extract, n, maxPages))
    decreases PageCount(n, maxPages)
  {
    if n <= maxPages {
      var page := RequestsPage(url, fetch, extract, n);
      if page.stop.None? {
        RequestsGoodPages(url, fetch, extract, n + 1, maxPages);
        var rest := RequestsWalk(url, fetch, extract, n + 1, maxPages);
        var w := RequestsWalk(url, fetch, extract, n, maxPages);
        assert w.log == page.log + rest.log && w.stop == rest.stop;
        forall k | 0 <= k < |w.log| && (w.stop.None? || k < |w.log| - 1)
          ensures StopOf(fetch(w.log[k])).None?
        {
          if k == 0 {
            assert w.log[0] == page.log[0];
          } else {
            assert w.log[k] == rest.log[k - 1];
          }
        }
      }
    }
  }

  /** The items are the cards of the pages fetched, page after page and card after card. */
  lemma {:induction false} RequestsItems(url: string, fetch: string -> Response, extract: SoupCard -> Item, n: nat, maxPages: int)
    ensures var w := RequestsWalk(url, fetch, extract, n, maxPages); w.items == Harvest(fetch, extract, w.log)
    decreases PageCount(n, maxPages)
  {
    if n <= maxPages {
      var page := RequestsPage(url, fetch, extract, n);
      if page.stop.Some? {
        assert Harvest(fetch, extract, page.log) == page.items + Harvest(fetch, extract, []);
      } else {
        RequestsItems(url, fetch, extract, n + 1, maxPages);
        var rest := RequestsWalk(url, fetch, extract, n + 1, maxPages);
        assert (page.log + rest.log)[1..] == rest.log;
      }
    }
  }

  /**
   * A larger page cap keeps everything a smaller one gathered: the same URLs
   * first and the same items first, and nothing changes at all when the
   * walk had stopped before reaching the smaller cap.
   */
  lemma {:induction false} RequestsMorePages(url: string, fetch: string -> Response, extract: SoupCard -> Item, n: nat, m1: int, m2: int)
    requires m1 <= m2
    ensures var w1 := RequestsWalk(url, fetch, extract, n, m1); var w2 := RequestsWalk(url, fetch, extract, n, m2);
      w1.log <= w2.log && w1.items <= w2.items && (w1.stop.Some? ==> w1 == w2)
    decreases PageCount(n, m1)
  {
    if n <= m1 {
      var page := RequestsPage(url, fetch, extract, n);
      if page.stop.None? {
        RequestsMorePages(url, fetch, extract, n + 1, m1, m2);
        var r1 := RequestsWalk(url, fetch, extract, n + 1, m1);
        var r2 := RequestsWalk(url, fetch, extract, n + 1, m2);
        assert page.items + r1.items <= page.items + r2.items;
        assert page.log + r1.log <= page.log + r2.log;
      }
    }
  }

  /** The walk from page n on, after the walk so far: a page that stops the walk ends it there. */
  lemma RequestsStep(url: string, fetch: string -> Response, extract: SoupCard -> Item, n: nat, maxPages: int, done: Walk<string, RequestsStop>)
    requires n <= maxPages && done.stop.None?
    ensures var page := RequestsPage(url, fetch, extract, n);
      Then(done, RequestsWalk(url, fetch, extract, n, maxPages))
      == if page.stop.Some? then Then(done, page)
         else Then(Then(done, page), RequestsWalk(url, fetch, extract, n + 1, maxPages))
  {
    var page := RequestsPage(url, fetch, extract, n);
    ThenAssoc(done, page, RequestsWalk(url, fetch, extract, n + 1, maxPages));
  }

  /**
   * _search_with_requests: every URL fetched is logged in `requested`; an
   * exception from session.get escapes and the items are lost.
   */
  method SearchWithRequests(url: string, maxPages: int, fetch: string -> Response, extract: SoupCard -> Item)
    returns (res: Result<seq<Item>, Failure>, requested: seq<string>)
    ensures var w := RequestsWalk(url, fetch, extract, 1, maxPages);
      requested == w.log
      && (res.Err? <==> w.stop == Some(GetRaised))
      && (res.Err? ==> res.error == RequestRaised)
      && (res.Ok? ==> res.value == w.items)
  {
    var items: seq<Item> := [];
    requested := [];
    var pageNum := 1;
    while pageNum <= maxPages
      invariant 1 <= pageNum
      invariant Then(Walk(items, requested, None), RequestsWalk(url, fetch, extract, pageNum, maxPages))
        == RequestsWalk(url, fetch, extract, 1, maxPages)
      decreases maxPages - pageNum
    {
      ghost var done := Walk(items, requested, None);
      ghost var page := RequestsPage(url, fetch, extract, pageNum);
      RequestsStep(url, fetch, extract, pageNum, maxPages, done);
      var pageUrl := PageUrl(url, pageNum);
      requested := requested + [pageUrl];
      var response := fetch(pageUrl);
      if response.Raised? {
        res := Err(RequestRaised);
        return;
      }
      if response.status != 200 {
        break;
      }
      if response.cards == [] {
        break;
      }
      items := AppendItems(items, response.cards, extract);
      pageNum := pageNum + 1;
    }
    res := Ok(items);
  }

  // ---------------------------------------------------------------------------
  // Playwright
  // ---------------------------------------------------------------------------

  /** What happens when the walker looks for `a.next-page` and clicks it. */
  datatype Advance = NoNextButton | Advances | AdvanceFails

  /** The page shown after n - 1 successful clicks: its cards and its next button. */
  datatype BrowserPage = BrowserPage(cards: seq<Card>, next: Advance)

  /** The session after goto(url): the first wait for cards times out, or pages 1, 2, ... */
  datatype BrowserSession = Unloadable | Session(pages: nat -> BrowserPage)

  datatype BrowserStop = NoNext | AdvanceFailed

  /** One page read, and whether the next button was looked for after it. */
  datatype Visit = Visit(page: nat, lookedForNext: bool)

  function NextStop(a: Advance): Option<BrowserStop> {
    match a
    case NoNextButton => Some(NoNext)
    case AdvanceFails => Some(AdvanceFailed)
    case Advances => None
  }

  function BrowserPageStep(pages: nat -> BrowserPage, extract: Card -> Item, n: nat, maxPages: int): Walk<Visit, BrowserStop> {
    Walk(MapSeq(extract, pages(n).cards), [Visit(n, n < maxPages)], if n < maxPages then NextStop(pages(n).next) else None)
  }

  /** The cards of `count` pages from page n on, page after page and card after card. */
  function BrowserHarvest(pages: nat -> BrowserPage, extract: Card -> Item, n: nat, count: nat): seq<Item>
    decreases count
  {
    if count == 0 then [] else MapSeq(extract, pages(n).cards) + BrowserHarvest(pages, extract, n + 1, count - 1)
  }

  /**
   * Pages n..maxPages as _search_with_playwright walks them: every page read
   * gives its cards, and the next button is looked for only before the last.
   */
  function PlaywrightWalk(pages: nat -> BrowserPage, extract: Card -> Item, n: nat, maxPages: int): (w: Walk<Visit, BrowserStop>)
    ensures w.log != [] <==> n <= maxPages
    decreases PageCount(n, maxPages)
  {
    if n > maxPages then
      Unit()
    else
      Then(BrowserPageStep(pages, extract, n, maxPages), PlaywrightWalk(pages, extract, n + 1, maxPages))
  }

  /**
   * Pages n, n + 1, ... are read in order, each after a click that worked;
   * the walk stops early only when the next button is missing or fails, and
   * never after the last page, where no button is looked for. The items are
   * the cards of the pages read, page after page and card after card.
   */
  lemma {:induction false} PlaywrightShape(pages: nat -> BrowserPage, extract: Card -> Item, n: nat, maxPages: int)
    ensures var w := PlaywrightWalk(pages, extract, n, maxPages);
      && |w.log| <= PageCount(n, maxPages)
      && (w.stop.None? ==> |w.log| == PageCount(n, maxPages))
      && (forall k :: 0 <= k < |w.log| ==> w.log[k] == Visit(n + k, n + k < maxPages))
      && (forall k :: 0 <= k < |w.log| - 1 ==> pages(w.log[k].page).next == Advances)
      && (w.stop.Some? ==> w.log != [] && n + |w.log| - 1 < maxPages && w.stop == NextStop(pages(n + |w.log| - 1).next))
      && w.items == BrowserHarvest(pages, extract, n, |w.log|)
  {
    PlaywrightLog(pages, extract, n, maxPages);
    PlaywrightItems(pages, extract, n, maxPages);
  }

  /** The pages a Playwright walk reads, and why it stops. */
  lemma {:induction false} PlaywrightLog(pages: nat -> BrowserPage, extract: Card -> Item, n: nat, maxPages: int)
    ensures var w := PlaywrightWalk(pages, extract, n, maxPages);
      && |w.log| <= PageCount(n, maxPages)
      && (w.stop.None? ==> |w.log| == PageCount(n, maxPages))
      && (forall k :: 0 <= k < |w.log| ==> w.log[k] == Visit(n + k, n + k < maxPages))
      && (forall k :: 0 <= k < |w.log| - 1 ==> pages(w.log[k].page).next == Advances)
      && (w.stop.Some? ==> w.log != [] && n + |w.log| - 1 < maxPages && w.stop == NextStop(pages(n + |w.log| - 1).next))
    decreases PageCount(n, maxPages)
  {
    var w := PlaywrightWalk(pages, extract, n, maxPages);
    if n <= maxPages {
      var step := BrowserPageStep(pages, extract, n, maxPages);
      if step.stop.None? {
        PlaywrightLog(pages, extract, n + 1, maxPages);
        var rest := PlaywrightWalk(pages, extract, n + 1, maxPages);
        assert w.log == [Visit(n, n < maxPages)] + rest.log;
        assert forall k :: 1 <= k < |w.log| ==> w.log[k] == rest.log[k - 1];
      }
    }
  }

  /** The items of a Playwright walk are the cards of the pages it read. */
  lemma {:induction false} PlaywrightItems(pages: nat -> BrowserPage, extract: Card -> Item, n: nat, maxPages: int)
    ensures var w := PlaywrightWalk(pages, extract, n, maxPages);
      w.items == BrowserHarvest(pages, extract, n, |w.log|)
    decreases PageCount(n, maxPages)
  {
    if n <= maxPages {
      var step := BrowserPageStep(pages, extract, n, maxPages);
      assert BrowserHarvest(pages, extract, n + 1, 0) == [];
      if step.stop.None? {
        PlaywrightItems(pages, extract, n + 1, maxPages);
      }
    }
  }

  lemma {:induction false} HarvestPrefix(pages: nat -> BrowserPage, extract: Card -> Item, n: nat, c1: nat, c2: nat)
    requires c1 <= c2
    ensures BrowserHarvest(pages, extract, n, c1) <= BrowserHarvest(pages, extract, n, c2)
    decreases c1
  {
    if c1 > 0 {
      HarvestPrefix(pages, extract, n + 1, c1 - 1, c2 - 1);
      var head := MapSeq(extract, pages(n).cards);
      assert head + BrowserHarvest(pages, extract, n + 1, c1 - 1) <= head + BrowserHarvest(pages, extract, n + 1, c2 - 1);
    }
  }

  /** A larger page cap keeps the pages and items a smaller one gathered, in the same order. */
  lemma {:induction false} PlaywrightMorePages(pages: nat -> BrowserPage, extract: Card -> Item, n: nat, m1: int, m2: int)
    requires m1 <= m2
    ensures var w1 := PlaywrightWalk(pages, extract, n, m1); var w2 := PlaywrightWalk(pages, extract, n, m2);
      |w1.log| <= |w2.log| && w1.items <= w2.items
    decreases PageCount(n, m1)
  {
    var w1 := PlaywrightWalk(pages, extract, n, m1);
    var w2 := PlaywrightWalk(pages, extract, n, m2);
    PlaywrightShape(pages, extract, n, m1);
    PlaywrightShape(pages, extract, n, m2);
    if n <= m1 {
      var s1 := BrowserPageStep(pages, extract, n, m1);
      var s2 := BrowserPageStep(pages, extract, n, m2);
      if s1.stop.None? {
        PlaywrightMorePages(pages, extract, n + 1, m1, m2);
        if s2.stop.Some? {
          assert n == m1 && |w1.log| == 1;
        }
      } else {
        assert |w1.log| == 1 && s2.stop.Some?;
      }
      HarvestPrefix(pages, extract, n, |w1.log|, |w2.log|);
    }
  }

  /** The walk from page n on, after the walk so far: a page that stops the walk ends it there. */
  lemma PlaywrightStep(pages: nat -> BrowserPage, extract: Card -> Item, n: nat, maxPages: int, done: Walk<Visit, BrowserStop>)
    requires n <= maxPages && done.stop.None?
    ensures var step := BrowserPageStep(pages, extract, n, maxPages);
      Then(done, PlaywrightWalk(pages, extract, n, maxPages))
      == if step.stop.Some? then Then(done, step)
         else Then(Then(done, step), PlaywrightWalk(pages, extract, n + 1, maxPages))
  {
    var step := BrowserPageStep(pages, extract, n, maxPages);
    ThenAssoc(done, step, PlaywrightWalk(pages, extract, n + 1, maxPages));
  }

  /**
   * _search_with_playwright: a first load that never shows a card raises and
   * escapes, even with no page to read; otherwise the items of the walk.
   */
  method SearchWithPlaywright(url: string, maxPages: int, browse: string -> BrowserSession, extract: Card -> Item)
    returns (res: Result<seq<Item>, Failure>, visits: seq<Visit>)
    ensures browse(url).Unloadable? ==> res == Err(LoadTimedOut) && visits == []
    ensures browse(url).Session? ==> var w := PlaywrightWalk(browse(url).pages, extract, 1, maxPages);
      res == Ok(w.items) && visits == w.log
  {
    var session := browse(url);
    if session.Unloadable? {
      res := Err(LoadTimedOut);
      visits := [];
      return;
    }
    var items: seq<Item> := [];
    visits := [];
    var pageNum := 1;
    while pageNum <= maxPages
      invariant 1 <= pageNum
      invariant Then(Walk(items, visits, None), PlaywrightWalk(session.pages, extract, pageNum, maxPages))
        == PlaywrightWalk(session.pages, extract, 1, maxPages)
      decreases maxPages - pageNum
    {
      ghost var done := Walk(items, visits, None);
      ghost var step := BrowserPageStep(session.pages, extract, pageNum, maxPages);
      PlaywrightStep(session.pages, extract, pageNum, maxPages, done);
      var page := session.pages(pageNum);
      items := AppendItems(items, page.cards, extract);
      visits := visits + [Visit(pageNum, pageNum < maxPages)];
      if pageNum < maxPages {
        if page.next != Advances {
          assert Walk(items, visits, step.stop) == PlaywrightWalk(session.pages, extract, 1, maxPages);
          break;
        }
      }
      pageNum := pageNum + 1;
    }
    assert items + [] == items && visits + [] == visits;
    res := Ok(items);
  }
}
