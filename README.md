# Vestiaire Collective scraper, modelled in Dafny

This project models the core of the luxury-scrapers repository: the Python
`VestiaireScraper` (`src/vestiaire/scraper.py`) and the string handling and
pagination of the JavaScript prototype (`tests/prototypes/vestiaire_scraper.js`).

Python side:

- `QueryBuilder` covers criteria validation and the search URL that `search`
  builds. The parameters are `designer`, `category` and `subcategory`, always in
  that order. Spaces in the brand become `+`; category and subcategory are
  lower-cased.
- `Extraction` covers card extraction, shared by the Playwright and the bs4
  extractors. A card is a record of fields, each missing, found (with its text)
  or unreadable; an unreadable field stands for an exception inside the
  extractor, which then returns `{}`. It also covers the price cleaning:
  remove `€` and `$`, strip, remove commas, then `float()`, with 0.0 on
  `ValueError`. Currency detection and link absolutisation are here too.
- `PageWalkers` holds the two page loops as methods with loop invariants. Each
  is proved against a recursive walk function built from one-page steps.
  - The backends are functions: `fetch` maps a URL to a response, and `browse`
    maps the search URL to a browser session whose page n has cards and a
    next button.
  - The walkers take the per-card extractor as a parameter.
- `Scraper.Search` is the public `search`. It rejects missing criteria, builds
  the URL by appending parameters and hands it to one walker or the other.
- `Numbers` reads plain decimal numerals (an optional sign, digits, an
  optional fractional part) as exact reals, the part of `float()`, `Number()`
  and `parseFloat()` the model covers; the forms it does not read are listed
  under "Left out".
- `Text` holds the string primitives both sides use: strip and trim, replace,
  lower, join and split, filter.

JavaScript side:

- `JsPrototype` covers:
  - the `--key value` argument loop of `main`, as a method;
  - the criteria check;
  - the parameter defaults of `scrapeVestiaire`, where `maxPages` is a
    JavaScript value so that a numeric 0 falls back to 3 while the string
    `"0"` does not;
  - the search-term join;
  - `randomDelay`;
  - the per-card product object, with its placeholders and its discount
    computation.
- `JsPagination` has the `while (currentPage <= maxPages)` loop as a method,
  proved against a recursive walk.

The two price readers disagree on a comma between digits. Python drops it as a
thousands separator: `"1,250"` is 1250 and `"99,90"` is 9990. The prototype
turns the first comma into a decimal point: `"1,250"` is 1.25 and `"99,90"` is
99.9. `Extraction.GroupedPrice` and `JsPrototype.CommaReading` state the two
readings.

Where the code and its description differ, the model follows the code:

- An exception that the code does not catch escapes the search, and the items
  gathered so far are lost. This covers `session.get` raising, `page.goto` or
  the first `wait_for_selector` raising, and `waitForNavigation` throwing. The model
  returns an `Err` for each.
- A price such as `"-5"` is read as -5.0 (Extraction.NegativePrice). Nothing rejects negative prices.

## Model

| member | source | states |
|---|---|---|
| Scraper.Search | src/vestiaire/scraper.py:88-110 | The search fails with InvalidCriteria exactly when neither brand nor category is given (None and "" alike), and then no URL is built. Otherwise the search URL goes to the chosen walker: the Playwright one gives its items, or LoadTimedOut when the first load fails; the requests one gives its items, or RequestRaised when a fetch raised |
| Scraper.RequestsSearchRecords | src/vestiaire/scraper.py:159-199 | Every item a requests search returns is a full record, never `{}` |
| Scraper.SoupHarvestIsRecords | src/vestiaire/scraper.py:192-197 | The bs4 cards of any run of pages all become full records |
| QueryBuilder.QueryParams | src/vestiaire/scraper.py:92-98 | One parameter per given criterion, designer first, then category, then subcategory; none when no criterion is given |
| QueryBuilder.SearchUrl | src/vestiaire/scraper.py:100 | The search URL starts with SEARCH_URL and '?'; SearchUrlParts shows the rest splits back into the parameters |
| QueryBuilder.SearchUrlParts | src/vestiaire/scraper.py:100 | The URL is SEARCH_URL + "?" followed by a query that splits at '&' back into exactly the parameters, when no criterion holds '&' |
| QueryBuilder.NoAmpersandInParams | src/vestiaire/scraper.py:92-98 | No parameter contains '&' when no criterion does (only spaces are escaped) |
| QueryBuilder.DesignerRoundTrip | src/vestiaire/scraper.py:94 | Turning the designer value's '+' back into spaces gives the brand back when it holds no '+' |
| QueryBuilder.TwoWordDesigner | src/vestiaire/scraper.py:94 | A two-word brand becomes first+second |
| Text.ReplaceChar | src/vestiaire/scraper.py:94 | Same length; every occurrence of one character becomes the other and nothing else changes |
| Text.ReplaceCharRoundTrip | src/vestiaire/scraper.py:94 | Replacing back undoes a replacement whose target character was absent |
| Text.Lower | src/vestiaire/scraper.py:96-98 | Same length, character by character lower-cased, no upper-case letter left |
| Text.SplitJoin | src/vestiaire/scraper.py:100 | Joining with a separator none of the pieces holds, then splitting, gives the pieces back |
| Text.JoinSplit | src/vestiaire/scraper.py:100 | Splitting and joining again gives the string back |
| Text.Strip | src/vestiaire/scraper.py:224 | The stripped text neither starts nor ends with a whitespace character |
| Text.StripSpan | src/vestiaire/scraper.py:231-232 | The text is whitespace, then the stripped text, then whitespace |
| Text.StripAround | src/vestiaire/scraper.py:224 | Stripping removes exactly the padding around a core that does not start or end with whitespace |
| Text.FilterStrip | src/vestiaire/scraper.py:224-226 | Stripping whitespace keeps every character a non-whitespace filter selects |
| Text.Filter | tests/prototypes/vestiaire_scraper.js:268-269 | The kept characters all pass the filter and come from the input |
| Text.FilterConcat | tests/prototypes/vestiaire_scraper.js:268-269 | Filtering distributes over concatenation |
| Text.ReplaceFirst | tests/prototypes/vestiaire_scraper.js:268-269 | Only the first occurrence changes; a string without it is unchanged |
| Extraction.ExtractItem | src/vestiaire/scraper.py:201-241 | `{}` exactly when some field is unreadable. Otherwise: source is "Vestiaire Collective"; currency is EUR exactly when the price text holds '€'; title and brand are the stripped text or "N/A"; price is the cleaned reading of the text, or of "0" when there is no price element; the link is absolutised |
| Extraction.SoupItemIsRecord | src/vestiaire/scraper.py:243-283 | A bs4 card always gives a full record, whose link is the absolutised href |
| Extraction.ExtractSoupItem | src/vestiaire/scraper.py:243-283 | A BeautifulSoup card always gives a full record with the fixed source: title and brand are the stripped text or "N/A", the price is the reading of the price text or of "0", the currency is EUR exactly when the price text holds '€', and the link is the absolutised href |
| Extraction.AsField | src/vestiaire/scraper.py:255-263 | A bs4 element's text is never unreadable |
| Extraction.NameOf | src/vestiaire/scraper.py:218-232 | A missing title or brand reads "N/A"; a found one is its text without the surrounding whitespace |
| Extraction.NotAvailableIsStripped | src/vestiaire/scraper.py:218-219 | "N/A" survives strip() unchanged |
| Extraction.MissingPriceIsZero | src/vestiaire/scraper.py:220-234 | The default price text "0" reads 0.0 in USD |
| Extraction.ExtractedPrice | src/vestiaire/scraper.py:220-228 | A missing price gives 0.0 and USD; a price text without a digit gives 0.0 |
| Extraction.CleanPriceKeepsDigits | src/vestiaire/scraper.py:224-226 | Cleaning a price removes no digit |
| Extraction.PriceNeedsDigit | src/vestiaire/scraper.py:224-228 | A price text without a digit ("N/A") reads 0.0 |
| Extraction.CleanDecorated | src/vestiaire/scraper.py:224-226 | A number between currency signs and whitespace cleans to the number without its commas |
| Extraction.CleanPrice | src/vestiaire/scraper.py:224-226 | The text float() is given: '€' and '$' removed, stripped, then ',' removed. It has no contract of its own; CleanPriceChars, CleanPriceKeepsDigits and CleanDecorated state what it keeps |
| Extraction.CleanPriceChars | src/vestiaire/scraper.py:224-226 | The cleaned text holds only characters of the raw text, and none of '€', '$' and ',' |
| Extraction.ParsePrice | src/vestiaire/scraper.py:224-228 | float() of the cleaned text, 0.0 when float() raises ValueError. It has no contract of its own; PriceNeedsDigit, GroupedPrice, DecimalPrice, SpaceGroupedPrice, NegativePrice and PriceSign state its readings |
| Extraction.PriceSign | src/vestiaire/scraper.py:224-228 | A price text without '-' never reads as a negative number |
| Extraction.NegativePrice | src/vestiaire/scraper.py:224-228 | Digits after a '-', amid currency signs and whitespace, read as the negated value of the digits: "-5" reads -5.0 and nothing rejects it |
| Extraction.CurrencyOf | src/vestiaire/scraper.py:234 | EUR exactly when the raw price text holds '€', otherwise USD |
| Extraction.GroupedPrice | src/vestiaire/scraper.py:224-228 | A comma-grouped number such as "1,250 €" reads as the value of its digits |
| Extraction.DecimalPrice | src/vestiaire/scraper.py:224-228 | A decimal price such as "€ 99.90" reads exactly |
| Extraction.SpaceGroupedPrice | src/vestiaire/scraper.py:224-228 | A space-grouped number such as "1 250 €" does not parse and reads 0.0 |
| Extraction.DecorationIsSpace | src/vestiaire/scraper.py:224 | Currency signs and whitespace leave only whitespace once '€' and '$' are removed |
| Extraction.AbsoluteLink | src/vestiaire/scraper.py:235 | A link exists exactly when an href does, and a non-empty link starts with "http" |
| Extraction.RelativeLink | src/vestiaire/scraper.py:235 | A non-empty href not starting with "http" becomes BASE_URL followed by the href, with no separator |
| Extraction.LinkPassesThrough | src/vestiaire/scraper.py:235 | None, "" and an href starting with "http" pass through unchanged |
| Extraction.AbsoluteLinkIdempotent | src/vestiaire/scraper.py:235 | Absolutising twice is absolutising once |
| Extraction.BaseUrlIsHttp | src/vestiaire/scraper.py:33 | BASE_URL followed by anything starts with "http" |
| Numbers.ParseSigned | src/vestiaire/scraper.py:226 | A reading with a leading '-' is not positive, and any other reading is not negative; NegNumeral and PosNumeral give the value of a signed numeral |
| Numbers.NegNumeral | src/vestiaire/scraper.py:226 | A '-' before a numeral reads as the negated numeral, and is rejected exactly when the numeral is |
| Numbers.PosNumeral | src/vestiaire/scraper.py:226 | A '+' before a numeral reads as the numeral itself |
| Numbers.PyFloat | src/vestiaire/scraper.py:226 | float(s): s stripped of Python whitespace, then read as a signed numeral; None stands for ValueError. It has no contract of its own; PyFloatOfDecimal, PyFloatOfShowNat, PyFloatNeedsDigit and PyFloatUnsigned state its readings |
| Numbers.PyFloatUnsigned | src/vestiaire/scraper.py:226 | float() of a text without '-' is never negative |
| Numbers.JsNumber | tests/prototypes/vestiaire_scraper.js:135 | Number() of a string maxPages as `<=` coerces it: a blank string is 0, a trimmed signed decimal numeral its value, anything else NaN. It has no contract of its own; ZeroString and StringZeroReadsNothing state its readings |
| Numbers.ParseNumeral | src/vestiaire/scraper.py:226 | digits.digits reads as its exact decimal value, and digits alone as their integer value |
| Numbers.PyFloatOfDecimal | src/vestiaire/scraper.py:226 | float() of digits.digits is its exact value |
| Numbers.PyFloatOfShowNat | src/vestiaire/scraper.py:220 | float() reads the decimal text of a natural number back as that number |
| Numbers.PyFloatNeedsDigit | src/vestiaire/scraper.py:225-228 | float() accepts no text without a digit |
| Numbers.StrippedHasDigit | src/vestiaire/scraper.py:224-226 | When the stripped text parses, the unstripped text holds a digit |
| Numbers.SignedHasDigit | src/vestiaire/scraper.py:226 | A signed numeral that parses holds a digit |
| Numbers.JsParseFloat | tests/prototypes/vestiaire_scraper.js:268-269 | parseFloat of a cleaned price is never negative |
| Numbers.JsParseFloatPrefix | tests/prototypes/vestiaire_scraper.js:268-269 | parseFloat reads the longest leading numeral digits.digits and ignores what follows |
| Numbers.JsParseFloatWhole | tests/prototypes/vestiaire_scraper.js:268-269 | parseFloat of digits followed by a non-numeral reads their integer value |
| Numbers.LeadingDigitsOf | tests/prototypes/vestiaire_scraper.js:268-269 | The leading digit run of digits followed by a non-digit is those digits |
| PageWalkers.AppendItems | src/vestiaire/scraper.py:136-139 | Each card appends exactly one item, in card order, after the items already gathered |
| PageWalkers.SearchWithRequests | src/vestiaire/scraper.py:159-199 | The URLs fetched are exactly the walk's log. The result fails with RequestRaised exactly when a fetch raised; otherwise it is the walk's items |
| PageWalkers.RequestsLog | src/vestiaire/scraper.py:172-190 | At most max_pages - n + 1 pages are fetched, at url&page=n, url&page=n+1, ... in order. All of them are fetched unless one stopped the walk, and the page that stopped it is the last one |
| PageWalkers.RequestsUrls | src/vestiaire/scraper.py:172-175 | The walk fetches no more pages than max_pages allows, all of them unless it stopped, at url&page=n, url&page=n+1, ... in order |
| PageWalkers.RequestsStopsAtLast | src/vestiaire/scraper.py:176-190 | A walk that stopped did so at the last page it fetched, for that page's reason |
| PageWalkers.RequestsGoodPages | src/vestiaire/scraper.py:181-190 | Every page fetched before the last answered 200 with cards |
| PageWalkers.RequestsItems | src/vestiaire/scraper.py:186-197 | The items are the cards of the pages fetched, page after page and card after card |
| PageWalkers.RequestsMorePages | src/vestiaire/scraper.py:172 | Raising max_pages only extends the fetched pages and the items; a walk that stopped early is unchanged |
| PageWalkers.RequestsStep | src/vestiaire/scraper.py:172-197 | A walk is its first page followed, if that page did not stop it, by the walk from the next page |
| PageWalkers.RequestsWalk | src/vestiaire/scraper.py:172-197 | The requests walk reads at least one page exactly when page n is within max_pages; RequestsLog, RequestsGoodPages, RequestsItems and RequestsMorePages state its pages and items |
| PageWalkers.SearchWithPlaywright | src/vestiaire/scraper.py:112-157 | Fails with LoadTimedOut and visits nothing when the first load fails; otherwise the pages visited are the walk's log and the items are its items |
| PageWalkers.PlaywrightShape | src/vestiaire/scraper.py:128-155 | Pages n, n+1, ... are read in order, at most max_pages - n + 1 of them. The next button is looked for only before the last page, and every page before the last advanced. The walk stops early only on a missing or failing next button. The items are the cards of the pages read, in order |
| PageWalkers.PlaywrightLog | src/vestiaire/scraper.py:128-155 | The pages read, their order, the next-button look-ups and the stop reason, as PlaywrightShape states them |
| PageWalkers.PlaywrightItems | src/vestiaire/scraper.py:134-139 | The items are the cards of the pages read, page after page |
| PageWalkers.PlaywrightMorePages | src/vestiaire/scraper.py:128 | Raising max_pages never reads fewer pages and only extends the items |
| PageWalkers.HarvestPrefix | src/vestiaire/scraper.py:134-139 | The items of fewer pages are a prefix of the items of more pages |
| PageWalkers.PlaywrightStep | src/vestiaire/scraper.py:128-155 | A walk is its first page followed, if that page did not stop it, by the walk from the next page |
| PageWalkers.PlaywrightWalk | src/vestiaire/scraper.py:128-155 | The Playwright walk reads at least one page exactly when page n is within max_pages; PlaywrightShape and PlaywrightMorePages state its pages and items |
| JsPrototype.ParseArgs | tests/prototypes/vestiaire_scraper.js:294-298 | The loop over even indices leaves the parameter map of the argument list |
| JsPrototype.Params | tests/prototypes/vestiaire_scraper.js:294-298 | The parameter map after one turn of main's loop per even index. It has no contract of its own; ParseArgs computes it, and LastFlagWins and NoFlagNoParam state its contents |
| JsPrototype.FlagKey | tests/prototypes/vestiaire_scraper.js:295-296 | An argument starts with "--" and its rest is the key exactly when it is "--" followed by the key |
| JsPrototype.LastFlagWins | tests/prototypes/vestiaire_scraper.js:294-298 | A key's value is the argument after its last flag at an even index; later duplicates overwrite earlier ones |
| JsPrototype.LastFlagWinsAfter | tests/prototypes/vestiaire_scraper.js:294-298 | The same, after any number of loop steps |
| JsPrototype.NoFlagNoParam | tests/prototypes/vestiaire_scraper.js:294-298 | A key with no flag at an even index is absent from the map |
| JsPrototype.NoFlagAfter | tests/prototypes/vestiaire_scraper.js:294-298 | The same, after any number of loop steps |
| JsPrototype.BrandFlagPasses | tests/prototypes/vestiaire_scraper.js:294-304 | A last --brand flag followed by a non-empty value passes the criteria check |
| JsPrototype.NoCriteriaFlags | tests/prototypes/vestiaire_scraper.js:294-304 | Without a --brand, --model or --category flag at an even index, the criteria check rejects the arguments |
| JsPrototype.OrEmpty | tests/prototypes/vestiaire_scraper.js:64-66 | A field becomes "" exactly when it is missing or empty, and a non-empty value is kept as it is |
| JsPrototype.ResolveParams | tests/prototypes/vestiaire_scraper.js:63-68 | maxPages is kept when truthy and is otherwise 3, so it is always truthy. Each text field is "" exactly when it was missing or empty, and otherwise is the given value |
| JsPrototype.ResolveIdempotent | tests/prototypes/vestiaire_scraper.js:63-68 | Defaulting resolved parameters changes nothing |
| JsPrototype.NonEmpty | tests/prototypes/vestiaire_scraper.js:73-74 | The non-empty terms, drawn from the list; none exactly when all are empty |
| JsPrototype.NonEmptySnoc | tests/prototypes/vestiaire_scraper.js:73-74 | One more term keeps everything kept so far, then the term itself when it is non-empty: every non-empty term is kept, in list order |
| JsPrototype.NonEmptyTerms | tests/prototypes/vestiaire_scraper.js:73-74 | The terms kept of brand, model and category are each of them that is non-empty, in that order |
| JsPrototype.JoinNonEmpty | tests/prototypes/vestiaire_scraper.js:75 | Joining terms that start with a non-empty one gives a non-empty string |
| JsPrototype.SearchTerms | tests/prototypes/vestiaire_scraper.js:73-75 | The non-empty brand, model and category, in that order, joined by one space. It has no contract of its own; SearchTermsEmpty, SearchTermsSplit and CriteriaGiveTerms state its properties |
| JsPrototype.SearchTermsEmpty | tests/prototypes/vestiaire_scraper.js:73-75 | The search terms are empty exactly when brand, model and category all are |
| JsPrototype.SearchTermsSplit | tests/prototypes/vestiaire_scraper.js:73-75 | For one-word criteria, the terms split at spaces into the non-empty criteria in order brand, model, category |
| JsPrototype.CriteriaGiveTerms | tests/prototypes/vestiaire_scraper.js:63-75 | Parameters that pass the criteria check give non-empty search terms |
| JsPrototype.RandomDelay | tests/prototypes/vestiaire_scraper.js:34-36 | For any draw in [0, 1) the delay is an integer in [500, 2000] |
| JsPrototype.RandomDelayOnto | tests/prototypes/vestiaire_scraper.js:34-36 | Every integer delay in [500, 2000] is drawn for some draw in [0, 1) |
| JsPrototype.JsCleanPrice | tests/prototypes/vestiaire_scraper.js:268-269 | The cleaned price holds only digits, ',' and '.' |
| JsPrototype.KeepPriceChars | tests/prototypes/vestiaire_scraper.js:268 | Digits with a comma between them survive the character filter |
| JsPrototype.CleanComma | tests/prototypes/vestiaire_scraper.js:268-269 | The comma between two digit runs becomes a decimal point |
| JsPrototype.CommaReading | tests/prototypes/vestiaire_scraper.js:268-269 | "a,b" reads as a.b, although its digits are those of a followed by b |
| JsPrototype.DigitsHaveComma | tests/prototypes/vestiaire_scraper.js:268-269 | The digits of "a,b" are a followed by b |
| JsPrototype.JsPriceNeedsDigit | tests/prototypes/vestiaire_scraper.js:268-271 | A price text without a digit never reads as a number |
| JsPrototype.ExtractProduct | tests/prototypes/vestiaire_scraper.js:254-278 | Title, brand, price and condition are the trimmed text or their placeholder; original_price is the trimmed text when its element exists and null otherwise; link and image pass through. A discount exists exactly when both trimmed prices are non-empty, both read as numbers and the original one is positive; it is then (original − current) / original × 100, at most 100 |
| JsPrototype.Discount | tests/prototypes/vestiaire_scraper.js:266-274 | A discount needs a non-empty price and a present, non-empty original price |
| JsPrototype.DiscountOf | tests/prototypes/vestiaire_scraper.js:271-273 | A discount needs both prices read and a positive original one, and discount × original == (original − current) × 100: the share of the original price taken off, in percent |
| JsPrototype.ProductDiscount | tests/prototypes/vestiaire_scraper.js:266-274 | A product's discount exists exactly when both prices are non-empty, read as numbers and the original is positive; it is (original − current) / original × 100, and at most 100 |
| JsPrototype.DiscountBounds | tests/prototypes/vestiaire_scraper.js:271-272 | A discount exists exactly when both prices read as numbers and the original one is positive, and it is at most 100% for a non-negative price |
| JsPrototype.MissingPriceNoDiscount | tests/prototypes/vestiaire_scraper.js:257-271 | A missing price gives the placeholder and no discount |
| JsPrototype.TextOrOf | tests/prototypes/vestiaire_scraper.js:255-259 | A missing element gives its placeholder; a found one gives its text without surrounding whitespace |
| JsPrototype.TextOr | tests/prototypes/vestiaire_scraper.js:255-259 | A missing element gives its placeholder, and a found element's text keeps no JavaScript whitespace at either end |
| JsPagination.ScrapePages | tests/prototypes/vestiaire_scraper.js:132-176 | The pages read are the walk's pages. The result fails with NavigationFailed exactly when a navigation threw; otherwise it is the walk's products |
| JsPagination.JsWalkPages | tests/prototypes/vestiaire_scraper.js:135-176 | Pages n, n+1, ... are read in order, no more of them than the limit allows; fewer only when the last page read did not navigate on (no next button, or a throw) |
| JsPagination.JsWalkAdvances | tests/prototypes/vestiaire_scraper.js:157-172 | Every page before the last navigated to the next, and a throw comes from the last page's navigation |
| JsPagination.JsWalkProducts | tests/prototypes/vestiaire_scraper.js:150-154 | The products are those of the pages read, page after page and card after card |
| JsPagination.JsStep | tests/prototypes/vestiaire_scraper.js:135-176 | A walk is its first page followed, if it navigated, by the walk from the next page |
| JsPagination.JsWalk | tests/prototypes/vestiaire_scraper.js:135-176 | The loop reads at least one page exactly when page n passes `n <= maxPages`, and it throws only after reading a page; JsWalkPages, JsWalkAdvances and JsWalkProducts state its pages and products |
| JsPagination.NumberOf | tests/prototypes/vestiaire_scraper.js:135 | Number() of maxPages: undefined is NaN, a number is itself, and a blank string is 0 |
| JsPagination.WholeLimit | tests/prototypes/vestiaire_scraper.js:135-176 | With a next button on every page, exactly maxPages pages are read |
| JsPagination.JsWalkAll | tests/prototypes/vestiaire_scraper.js:135-176 | The same from any starting page |
| JsPagination.ScrapeVestiaire | tests/prototypes/vestiaire_scraper.js:61-187 | The walk runs with the defaulted maxPages coerced to a number, and a navigation that throws escapes |
| JsPagination.Cli | tests/prototypes/vestiaire_scraper.js:288-316 | Arguments without criteria are rejected before any page is read; otherwise the scrape runs on the parsed parameters |
| JsPagination.DefaultReadsAtMostThree | tests/prototypes/vestiaire_scraper.js:63-68 | A falsy maxPages reads at most 3 pages |
| JsPagination.ZeroString | tests/prototypes/vestiaire_scraper.js:135 | The string "0" compares as the number 0 |
| JsPagination.StringZeroReadsNothing | tests/prototypes/vestiaire_scraper.js:63-68 | The string "0" is truthy and reads no page, while the number 0 falls back to 3 |

## Left out

- Playwright, requests, BeautifulSoup and puppeteer are replaced by functions from URLs or page numbers to outcomes. HTML parsing, selectors, headers and user agents are not modelled.
- `__init__`, `_init_playwright` and `__del__` only manage resources and are not modelled.
- `time.sleep(random.uniform(1, 3))`, the JavaScript `wait`, `setTimeout`, `autoScroll` and the cookie banner are timing and browser behaviour.
- The `scraped_at` timestamps depend on the clock and are not part of the records.
- Logging, console output, `process.exit`, `getRandomUserAgent`, the stubs `get_item_details` and `save_to_database`, and the `__main__` demo are not modelled.
- `encodeURIComponent` and the prototype's search URL are not modelled; the search terms it encodes are.
- The prototype's `puppeteer.launch`, `goto` and cookie handling always succeed in the model; only the pagination loop's navigation may throw.
- Numbers.ParseSigned: reads only an optional sign, ASCII digits and an optional fractional part, exactly. Python's `float()` also accepts inf, nan, exponents, underscores and non-ASCII Unicode decimal digits, and rounds to binary floating point; those are not modelled.
- Numbers.JsParseFloat: reads only unsigned numerals, which is all a cleaned price can hold. Signs, exponents and Infinity are left out.
- JsPrototype.ExtractProduct: the discount is the exact percentage. `toFixed(0)` and the '%' suffix are floating-point formatting and are not modelled.
- JsPrototype.ParseArgs: arguments are strings, and a flag in the last position maps its key to undefined (None). Keys such as `__proto__` that have special meaning on a JavaScript object are treated like any other key.
- JsPagination.ScrapeVestiaire: maxPages from a caller other than the command line is a string, a number or undefined; other JavaScript values, and NaN itself as a parameter, are not modelled.
- JsPagination.ScrapeVestiaire: the coercion of a string maxPages (Numbers.JsNumber) reads only plain decimal numerals. `Number()` also reads exponents ("1e1" is 10), hexadecimal, octal and binary literals ("0x3", "0o7", "0b1") and "Infinity"; the model reads these as NaN, so `--maxPages 1e1` reads no page there while the prototype reads up to 10.
- Scraper.Search: every argument is passed explicitly. The Python defaults (brand, category and subcategory None, max_pages 1) are the values a caller passes when it leaves them out.
- Text.Lower: lower-cases ASCII letters only. Python's `str.lower()` also maps other Unicode letters.
- Extraction.ExtractItem: an exception inside `query_selector` or `text_content` is a field marked unreadable. Exceptions from `query_selector_all` itself are not modelled.
