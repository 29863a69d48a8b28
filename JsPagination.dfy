/**
 * scrapeVestiaire's page loop and main's run of it: after the first page has
 * loaded, read the products of page after page while `currentPage <=
 * maxPages`, looking for a next button only before the last page.
 */
module JsPagination {
  import opened Wrappers
  import opened Text
  import opened Numbers
  import opened JsPrototype

  /** What happens when the loop looks for a next button and follows it. */
  datatype NextButton = NoButton | Navigates | NavigationThrows

  /** Page n of the results: its product cards and its next button. */
  datatype ResultPage = ResultPage(cards: seq<ProductCard>, next: NextButton)

  /** Why the prototype ends with an error instead of products. */
  datatype JsFailure =
    | MissingCriteria   // main: no brand, model or category; exit status 1
    | NavigationFailed  // waitForNavigation threw; rethrown after the browser is closed

  /** Number(v), as a comparison with a page number coerces it; None stands for NaN. */
  function NumberOf(v: JsValue): (r: Option<real>)
    ensures v.Undefined? ==> r.None?
    ensures v.Num? ==> r == Some(v.n)
    ensures v.Str? && JsTrim(v.s) == "" ==> r == Some(0.0)
  {
    match v
    case Undefined => None
    case Num(n) => Some(n)
    case Str(s) => JsNumber(s)
  }

  /** `n <= maxPages`, for the number maxPages coerces to (NaN compares false). */
  predicate AtMost(n: int, limit: Option<real>) {
    limit.Some? && n as real <= limit.value
  }

  /** `n < maxPages` */
  predicate Below(n: int, limit: Option<real>) {
    limit.Some? && n as real < limit.value
  }

  /** How many of the page numbers n, n + 1, ... satisfy `<= maxPages`. */
  function Remaining(n: int, limit: Option<real>): nat {
    if AtMost(n, limit) then limit.value.Floor - n + 1 else 0
  }

  /** The products extractProducts reads from a page. */
  function ExtractProducts(cards: seq<ProductCard>): seq<Product> {
    MapSeq(ExtractProduct, cards)
  }

  /** The loop from page n on: the products read, the pages read, and whether a navigation threw. */
  datatype JsRun = JsRun(products: seq<Product>, pagesRead: seq<int>, threw: bool)

  /** `a` then `b`, for an `a` that did not throw. */
  function JsThen(a: JsRun, b: JsRun): JsRun {
    JsRun(a.products + b.products, a.pagesRead + b.pagesRead, b.threw)
  }

  /** The loop from page n on, as scrapeVestiaire runs it. */
  function JsWalk(pages: int -> ResultPage, limit: Option<real>, n: int): (w: JsRun)
    ensures w.pagesRead != [] <==> AtMost(n, limit)
    ensures w.threw ==> w.pagesRead != []
    decreases Remaining(n, limit)
  {
    if !AtMost(n, limit) then
      JsRun([], [], false)
    else
      var here := JsRun(ExtractProducts(pages(n).cards), [n], false);
      if Below(n, limit) && pages(n).next == Navigates then
        JsThen(here, JsWalk(pages, limit, n + 1))
      else
        here.(threw := Below(n, limit) && pages(n).next == NavigationThrows)
  }

  /** The products of `count` pages from page n on, page after page and card after card. */
  function JsHarvest(pages: int -> ResultPage, n: int, count: nat): seq<Product>
    decreases count
  {
    if count == 0 then [] else ExtractProducts(pages(n).cards) + JsHarvest(pages, n + 1, count - 1)
  }

  /**
   * The pages read are n, n + 1, ... in order, never more than the limit
   * allows, and fewer only when the last page read did not navigate on.
   */
  lemma {:induction false} JsWalkPages(pages: int -> ResultPage, limit: Option<real>, n: int)
    ensures var w := JsWalk(pages, limit, n);
      |w.pagesRead| <= Remaining(n, limit) && forall k :: 0 <= k < |w.pagesRead| ==> w.pagesRead[k] == n + k
    ensures var w := JsWalk(pages, limit, n);
      |w.pagesRead| < Remaining(n, limit) ==> w.pagesRead != [] && pages(w.pagesRead[|w.pagesRead| - 1]).next != Navigates
    decreases Remaining(n, limit)
  {
    var w := JsWalk(pages, limit, n);
    if AtMost(n, limit) && Below(n, limit) && pages(n).next == Navigates {
      JsWalkPages(pages, limit, n + 1);
      var rest := JsWalk(pages, limit, n + 1);
      assert w.pagesRead == [n] + rest.pagesRead;
      forall k | 0 <= k < |w.pagesRead| ensures w.pagesRead[k] == n + k {
        if k > 0 {
          assert w.pagesRead[k] == rest.pagesRead[k - 1];
        }
      }
      if |w.pagesRead| < Remaining(n, limit) {
        assert w.pagesRead[|w.pagesRead| - 1] == rest.pagesRead[|rest.pagesRead| - 1];
      }
    } else if AtMost(n, limit) && |w.pagesRead| < Remaining(n, limit) {
      assert w.pagesRead == [n];
      assert Below(n, limit);
    }
  }

  /**
   * Every page but the last one read was left through a working next button,
   * and a throw comes from the next button of the last page read.
   */
  lemma {:induction false} JsWalkAdvances(pages: int -> ResultPage, limit: Option<real>, n: int)
    ensures var w := JsWalk(pages, limit, n);
      && (forall k :: 0 <= k < |w.pagesRead| - 1 ==> pages(w.pagesRead[k]).next == Navigates)
      && (w.threw ==> w.pagesRead != [] && pages(w.pagesRead[|w.pagesRead| - 1]).next == NavigationThrows)
    decreases Remaining(n, limit)
  {
    if AtMost(n, limit) && Below(n, limit) && pages(n).next == Navigates {
      JsWalkAdvances(pages, limit, n + 1);
      var w := JsWalk(pages, limit, n);
      var rest := JsWalk(pages, limit, n + 1);
      assert w.pagesRead == [n] + rest.pagesRead;
      forall k | 0 <= k < |w.pagesRead| - 1 ensures pages(w.pagesRead[k]).next == Navigates {
        if k > 0 {
          assert w.pagesRead[k] == rest.pagesRead[k - 1];
        }
      }
      if w.threw {
        assert w.pagesRead[|w.pagesRead| - 1] == rest.pagesRead[|rest.pagesRead| - 1];
      }
    }
  }

  /** The products are those of the pages read, page after page and card after card. */
  lemma {:induction false} JsWalkProducts(pages: int -> ResultPage, limit: Option<real>, n: int)
    ensures var w := JsWalk(pages, limit, n); w.products == JsHarvest(pages, n, |w.pagesRead|)
    decreases Remaining(n, limit)
  {
    if AtMost(n, limit) {
      assert JsHarvest(pages, n + 1, 0) == [];
      if Below(n, limit) && pages(n).next == Navigates {
        JsWalkProducts(pages, limit, n + 1);
      }
    }
  }

  /** The loop from page n on, after the pages read so far. */
  lemma JsStep(pages: int -> ResultPage, limit: Option<real>, n: int, done: JsRun)
    requires AtMost(n, limit)
    ensures var here := JsRun(ExtractProducts(pages(n).cards), [n], false);
      JsThen(done, JsWalk(pages, limit, n))
      == if Below(n, limit) && pages(n).next == Navigates then JsThen(JsThen(done, here), JsWalk(pages, limit, n + 1))
         else JsThen(done, here.(threw := Below(n, limit) && pages(n).next == NavigationThrows))
  {
    var here := JsRun(ExtractProducts(pages(n).cards), [n], false);
    var rest := JsWalk(pages, limit, n + 1);
    assert done.products + (here.products + rest.products) == (done.products + here.products) + rest.products;
    assert done.pagesRead + (here.pagesRead + rest.pagesRead) == (done.pagesRead + here.pagesRead) + rest.pagesRead;
  }

  /**
   * The `while (currentPage <= searchParams.maxPages)` loop, for the number
   * `limit` that maxPages coerces to: a navigation that throws escapes and the
   * products read so far are lost.
   */
  method ScrapePages(limit: Option<real>, pages: int -> ResultPage) returns (res: Result<seq<Product>, JsFailure>, pagesRead: seq<int>)
    ensures var w := JsWalk(pages, limit, 1);
      pagesRead == w.pagesRead
      && (res.Err? <==> w.threw)
      && (res.Err? ==> res.error == NavigationFailed)
      && (res.Ok? ==> res.value == w.products)
  {
    var allProducts: seq<Product> := [];
    pagesRead := [];
    var currentPage := 1;
    while AtMost(currentPage, limit)
      invariant JsThen(JsRun(allProducts, pagesRead, false), JsWalk(pages, limit, currentPage)) == JsWalk(pages, limit, 1)
      decreases Remaining(currentPage, limit)
    {
      ghost var done := JsRun(allProducts, pagesRead, false);
      JsStep(pages, limit, currentPage, done);
      var page := pages(currentPage);
      var productsOnPage := ExtractProducts(page.cards);
      allProducts := allProducts + productsOnPage;
      pagesRead := pagesRead + [currentPage];
      if Below(currentPage, limit) {
        if page.next == NoButton {
          assert JsRun(allProducts, pagesRead, false) == JsWalk(pages, limit, 1);
          break;
        }
        if page.next == NavigationThrows {
          return Err(NavigationFailed), pagesRead;
        }
        currentPage := currentPage + 1;
      } else {
        assert JsRun(allProducts, pagesRead, false) == JsWalk(pages, limit, 1);
        break;
      }
    }
    assert allProducts + [] == allProducts && pagesRead + [] == pagesRead;
    res := Ok(allProducts);
  }

  /** scrapeVestiaire: the defaults, then the page loop with the resolved maxPages. */
  method ScrapeVestiaire(req: ScrapeRequest, pages: int -> ResultPage) returns (res: Result<seq<Product>, JsFailure>, pagesRead: seq<int>)
    ensures var w := JsWalk(pages, NumberOf(ResolveParams(req).maxPages), 1);
      pagesRead == w.pagesRead && (res.Err? <==> w.threw) && (res.Ok? ==> res.value == w.products)
  {
    var searchParams := ResolveParams(req);
    // maxPages is coerced to a number at each comparison with currentPage, to the same number every time
    var limit := NumberOf(searchParams.maxPages);
    res, pagesRead := ScrapePages(limit, pages);
  }

  /**
   * main: parse the arguments, exit with an error when no criterion is given
   * (before any page is read), otherwise scrape with the params as parsed.
   */
  method Cli(args: seq<string>, pages: int -> ResultPage) returns (res: Result<seq<Product>, JsFailure>, pagesRead: seq<int>)
    ensures !HasCriteria(Params(args)) ==> res == Err(MissingCriteria) && pagesRead == []
    ensures HasCriteria(Params(args)) ==> var w := JsWalk(pages, NumberOf(ResolveParams(RequestOf(Params(args))).maxPages), 1);
      pagesRead == w.pagesRead && (res.Err? <==> w.threw) && (res.Ok? ==> res.value == w.products)
  {
    var params := ParseArgs(args);
    if !HasCriteria(params) {
      return Err(MissingCriteria), [];
    }
    res, pagesRead := ScrapeVestiaire(RequestOf(params), pages);
  }

  // ---------------------------------------------------------------------------
  // The page limit
  // ---------------------------------------------------------------------------

  /** Without a usable maxPages (undefined, '' or 0) the loop reads at most config.maxPages = 3 pages. */
  lemma DefaultReadsAtMostThree(req: ScrapeRequest, pages: int -> ResultPage)
    requires !Truthy(req.maxPages)
    ensures |JsWalk(pages, NumberOf(ResolveParams(req).maxPages), 1).pagesRead| <= 3
  {
    JsWalkPages(pages, Some(DEFAULT_MAX_PAGES), 1);
  }

  /** A whole maxPages m reads at most m pages, and exactly m when every next button works. */
  lemma WholeLimit(pages: int -> ResultPage, m: nat)
    requires forall k :: 1 <= k < m ==> pages(k).next == Navigates
    ensures |JsWalk(pages, Some(m as real), 1).pagesRead| == m
  {
    JsWalkAll(pages, m, 1);
  }

  lemma {:induction false} JsWalkAll(pages: int -> ResultPage, m: nat, n: int)
    requires 1 <= n
    requires forall k :: n <= k < m ==> pages(k).next == Navigates
    ensures |JsWalk(pages, Some(m as real), n).pagesRead| == if n <= m then m - n + 1 else 0
    decreases m - n + 1
  {
    if n < m {
      JsWalkAll(pages, m, n + 1);
    }
  }

  /** The string "0" coerces to the number 0. */
  lemma ZeroString()
    ensures JsNumber("0") == Some(0.0)
  {
    var s := "0";
    assert JsTrim(s) == s by {
      assert [] + s + [] == s;
      StripAround([], s, [], IsJsSpace);
    }
    assert s == ShowNat(0);
    ParseNumeral(s, "");
  }

  /**
   * `--maxPages 0` on the command line is the string "0", which is truthy and
   * kept, so not a single page is read; a caller passing the number 0 gets the
   * default instead.
   */
  lemma StringZeroReadsNothing(pages: int -> ResultPage)
    ensures JsWalk(pages, NumberOf(ResolveParams(ScrapeRequest(None, None, None, Str("0"))).maxPages), 1).pagesRead == []
    ensures ResolveParams(ScrapeRequest(None, None, None, Num(0.0))).maxPages == Num(DEFAULT_MAX_PAGES)
  {
    ZeroString();
    assert NumberOf(ResolveParams(ScrapeRequest(None, None, None, Str("0"))).maxPages) == Some(0.0);
    assert !AtMost(1, Some(0.0));
  }
}
