/**
 * The logic of the Node prototype outside the browser: main's `--key value`
 * argument loop and its criteria check, scrapeVestiaire's defaults and search
 * terms, randomDelay, and the product record extractProducts builds from a
 * product card.
 */
module JsPrototype {
  import opened Wrappers
  import opened Text
  import opened Numbers

  const MIN_DELAY: int := 500
  const MAX_DELAY: int := 2000
  /** config.maxPages */
  const DEFAULT_MAX_PAGES: real := 3.0

  /** A JavaScript value where the prototype needs one: undefined, a string or a number (NaN is not modelled). */
  datatype JsValue = Undefined | Str(s: string) | Num(n: real)

  /** JavaScript truthiness: undefined, "" and 0 are false. */
  predicate Truthy(v: JsValue) {
    match v
    case Undefined => false
    case Str(s) => s != ""
    case Num(n) => n != 0.0
  }

  /** Truthiness of a string or undefined. */
  predicate Filled(v: Option<string>) {
    v.Some? && v.value != ""
  }

  // ---------------------------------------------------------------------------
  // main's argument loop
  // ---------------------------------------------------------------------------

  /** args[i + 1], or undefined past the end. */
  function ValueAfter(args: seq<string>, i: nat): Option<string> {
    if i + 1 < |args| then Some(args[i + 1]) else None
  }

  /** The turn of main's loop at index i: a `--key` token sets params[key] to the token after it. */
  function ArgStep(params: map<string, Option<string>>, args: seq<string>, i: nat): map<string, Option<string>>
    requires i < |args|
  {
    if StartsWith(args[i], "--") then params[args[i][2..] := ValueAfter(args, i)] else params
  }

  /** params after the turns at indices 0, 2, ..., 2 * (t - 1). */
  function ParamsAfter(args: seq<string>, t: nat): map<string, Option<string>>
    requires 2 * t <= |args| + 1
  {
    if t == 0 then map[] else ArgStep(ParamsAfter(args, t - 1), args, 2 * (t - 1))
  }

  /** params once main's loop is done: it takes one turn per even index. */
  function Params(args: seq<string>): map<string, Option<string>> {
    ParamsAfter(args, (|args| + 1) / 2)
  }

  /** main's loop: `for (let i = 0; i < args.length; i += 2)`. */
  method ParseArgs(args: seq<string>) returns (params: map<string, Option<string>>)
    ensures params == Params(args)
  {
    params := map[];
    var i := 0;
    while i < |args|
      invariant i % 2 == 0 && i <= |args| + 1
      invariant params == ParamsAfter(args, i / 2)
    {
      if StartsWith(args[i], "--") {
        var value := if i + 1 < |args| then Some(args[i + 1]) else None;
        params := params[args[i][2..] := value];
      }
      i := i + 2;
    }
  }

  /** args[i] is the flag `--key`, at an index the loop visits. */
  predicate FlagAt(args: seq<string>, i: int, key: string) {
    0 <= i < |args| && i % 2 == 0 && args[i] == "--" + key
  }

  lemma FlagKey(s: string, key: string)
    ensures (StartsWith(s, "--") && s[2..] == key) <==> s == "--" + key
  {
    if StartsWith(s, "--") && s[2..] == key {
      assert s == s[..2] + s[2..];
    }
    if s == "--" + key {
      assert s[..2] == "--" && s[2..] == key;
    }
  }

  lemma {:induction false} LastFlagWinsAfter(args: seq<string>, key: string, i: int, t: nat)
    requires 2 * t <= |args| + 1
    requires FlagAt(args, i, key) && i < 2 * t
    requires forall j :: i < j < 2 * t ==> !FlagAt(args, j, key)
    ensures key in ParamsAfter(args, t) && ParamsAfter(args, t)[key] == ValueAfter(args, i)
  {
    var m := 2 * (t - 1);
    FlagKey(args[m], key);
    if i < m {
      LastFlagWinsAfter(args, key, i, t - 1);
      assert !FlagAt(args, m, key);
    }
  }

  lemma {:induction false} NoFlagAfter(args: seq<string>, key: string, t: nat)
    requires 2 * t <= |args| + 1
    requires forall j :: 0 <= j < 2 * t ==> !FlagAt(args, j, key)
    ensures key !in ParamsAfter(args, t)
  {
    if t > 0 {
      var m := 2 * (t - 1);
      FlagKey(args[m], key);
      assert !FlagAt(args, m, key);
      NoFlagAfter(args, key, t - 1);
    }
  }

  /**
   * A key's value is the token after its last `--key` flag at an even index;
   * a later flag for the same key overwrites an earlier one.
   */
  lemma LastFlagWins(args: seq<string>, key: string, i: int)
    requires FlagAt(args, i, key)
    requires forall j :: i < j < |args| ==> !FlagAt(args, j, key)
    ensures key in Params(args) && Params(args)[key] == ValueAfter(args, i)
  {
    LastFlagWinsAfter(args, key, i, (|args| + 1) / 2);
  }

  /**
   * A key without a flag at an even index is never set: a token at an even
   * index that is not a flag is skipped together with the token after it,
   * even when that one reads `--key`.
   */
  lemma NoFlagNoParam(args: seq<string>, key: string)
    requires forall j :: 0 <= j < |args| ==> !FlagAt(args, j, key)
    ensures key !in Params(args)
  {
    NoFlagAfter(args, key, (|args| + 1) / 2);
  }

  /** params[key], undefined when the key was never set. */
  function Param(params: map<string, Option<string>>, key: string): Option<string> {
    if key in params then params[key] else None
  }

  /** main's check: a brand, a model or a category, non-empty; otherwise it exits with status 1. */
  predicate HasCriteria(params: map<string, Option<string>>) {
    Filled(Param(params, "brand")) || Filled(Param(params, "model")) || Filled(Param(params, "category"))
  }

  /** A last `--brand` flag followed by a non-empty token passes main's check. */
  lemma BrandFlagPasses(args: seq<string>, i: int)
    requires FlagAt(args, i, "brand")
    requires forall j :: i < j < |args| ==> !FlagAt(args, j, "brand")
    requires i + 1 < |args| && args[i + 1] != ""
    ensures HasCriteria(Params(args))
  {
    LastFlagWins(args, "brand", i);
  }

  /** Without a `--brand`, `--model` or `--category` flag at an even index, main rejects the arguments. */
  lemma NoCriteriaFlags(args: seq<string>)
    requires forall j :: 0 <= j < |args| ==> !FlagAt(args, j, "brand") && !FlagAt(args, j, "model") && !FlagAt(args, j, "category")
    ensures !HasCriteria(Params(args))
  {
    NoFlagNoParam(args, "brand");
    NoFlagNoParam(args, "model");
    NoFlagNoParam(args, "category");
  }

  // ---------------------------------------------------------------------------
  // scrapeVestiaire's parameters and search terms
  // ---------------------------------------------------------------------------

  /** What scrapeVestiaire is called with: strings from the command line, or a number of pages from another caller. */
  datatype ScrapeRequest = ScrapeRequest(brand: Option<string>, model: Option<string>, category: Option<string>, maxPages: JsValue)

  /** The request main passes: the parsed params as they are. */
  function RequestOf(params: map<string, Option<string>>): ScrapeRequest {
    var pages := Param(params, "maxPages");
    ScrapeRequest(Param(params, "brand"), Param(params, "model"), Param(params, "category"),
                  if pages.Some? then Str(pages.value) else Undefined)
  }

  datatype SearchParams = SearchParams(brand: string, model: string, category: string, maxPages: JsValue)

  /** `v || ''` for a string or undefined. */
  function OrEmpty(v: Option<string>): (s: string)
    ensures s == "" <==> !Filled(v)
    ensures Filled(v) ==> s == v.value
  {
    if v.Some? then v.value else ""
  }

  /**
   * The defaults: a falsy brand, model or category becomes '', and a falsy
   * maxPages (undefined, '' or the number 0) becomes config.maxPages. A
   * non-empty string such as "0" is truthy and is kept.
   */
  function ResolveParams(req: ScrapeRequest): (sp: SearchParams)
    ensures Truthy(sp.maxPages)
    ensures Truthy(req.maxPages) ==> sp.maxPages == req.maxPages
    ensures !Truthy(req.maxPages) ==> sp.maxPages == Num(DEFAULT_MAX_PAGES)
    ensures sp.brand == "" <==> !Filled(req.brand)
    ensures sp.model == "" <==> !Filled(req.model)
    ensures sp.category == "" <==> !Filled(req.category)
    ensures Filled(req.brand) ==> sp.brand == req.brand.value
    ensures Filled(req.model) ==> sp.model == req.model.value
    ensures Filled(req.category) ==> sp.category == req.category.value
  {
    SearchParams(OrEmpty(req.brand), OrEmpty(req.model), OrEmpty(req.category),
                 if Truthy(req.maxPages) then req.maxPages else Num(DEFAULT_MAX_PAGES))
  }

  /** Resolving resolved parameters again changes nothing. */
  lemma ResolveIdempotent(req: ScrapeRequest)
    ensures var sp := ResolveParams(req);
      ResolveParams(ScrapeRequest(Some(sp.brand), Some(sp.model), Some(sp.category), sp.maxPages)) == sp
  {
  }

  /** The non-empty strings of xs, in order: `.filter(term => term)`. */
  function NonEmpty(xs: seq<string>): (r: seq<string>)
    ensures |r| <= |xs|
    ensures forall k :: 0 <= k < |r| ==> r[k] != "" && r[k] in xs
    ensures r == [] <==> forall k :: 0 <= k < |xs| ==> xs[k] == ""
  {
    if xs == [] then []
    else
      var rest := NonEmpty(xs[1..]);
      assert forall k :: 0 <= k < |rest| ==> rest[k] in xs;
      if xs[0] == "" then
        assert forall k :: 1 <= k < |xs| ==> xs[k] == xs[1..][k - 1];
        rest
      else [xs[0]] + rest
  }

  /** Filtering a list with one more term keeps what it kept, then that term when it is non-empty. */
  lemma {:induction false} NonEmptySnoc(xs: seq<string>, x: string)
    ensures NonEmpty(xs + [x]) == NonEmpty(xs) + (if x != "" then [x] else [])
  {
    if xs == [] {
      assert xs + [x] == [x] && [x][1..] == [];
    } else {
      assert (xs + [x])[0] == xs[0] && (xs + [x])[1..] == xs[1..] + [x];
      NonEmptySnoc(xs[1..], x);
    }
  }

  /** The terms kept of brand, model and category: each one that is non-empty, in that order. */
  lemma NonEmptyTerms(a: string, b: string, c: string)
    ensures NonEmpty([a, b, c]) == (if a != "" then [a] else []) + (if b != "" then [b] else []) + (if c != "" then [c] else [])
  {
    assert [a, b, c] == [a, b] + [c] && [a, b] == [a] + [b] && [a] == [] + [a];
    NonEmptySnoc([], a);
    NonEmptySnoc([a], b);
    NonEmptySnoc([a, b], c);
  }

  /** The search terms: the non-empty brand, model and category, in that order, joined by one space. */
  function SearchTerms(sp: SearchParams): string {
    Join(NonEmpty([sp.brand, sp.model, sp.category]), ' ')
  }

  lemma JoinNonEmpty(xs: seq<string>, sep: char)
    requires xs != [] && xs[0] != ""
    ensures Join(xs, sep) != ""
  {
    if |xs| > 1 {
      assert |Join(xs, sep)| >= |xs[0]|;
    }
  }

  /** The terms are empty exactly when brand, model and category all are. */
  lemma SearchTermsEmpty(sp: SearchParams)
    ensures SearchTerms(sp) == "" <==> sp.brand == "" && sp.model == "" && sp.category == ""
  {
    var xs := [sp.brand, sp.model, sp.category];
    var terms := NonEmpty(xs);
    if terms != [] {
      JoinNonEmpty(terms, ' ');
    }
    assert xs[0] == sp.brand && xs[1] == sp.model && xs[2] == sp.category;
  }

  /** Without spaces inside the criteria, splitting the terms at ' ' gives back the non-empty criteria. */
  lemma SearchTermsSplit(sp: SearchParams)
    requires ' ' !in sp.brand && ' ' !in sp.model && ' ' !in sp.category
    requires sp.brand != "" || sp.model != "" || sp.category != ""
    ensures Split(SearchTerms(sp), ' ') == NonEmpty([sp.brand, sp.model, sp.category])
  {
    var xs := [sp.brand, sp.model, sp.category];
    var terms := NonEmpty(xs);
    SearchTermsEmpty(sp);
    forall k | 0 <= k < |terms| ensures ' ' !in terms[k] {
      assert terms[k] in xs;
    }
    SplitJoin(terms, ' ');
  }

  /** Arguments that pass main's check always give scrapeVestiaire something to search for. */
  lemma CriteriaGiveTerms(params: map<string, Option<string>>)
    requires HasCriteria(params)
    ensures SearchTerms(ResolveParams(RequestOf(params))) != ""
  {
    SearchTermsEmpty(ResolveParams(RequestOf(params)));
  }

  // ---------------------------------------------------------------------------
  // randomDelay
  // ---------------------------------------------------------------------------

  /** randomDelay() for the draw r of Math.random(), 0 <= r < 1: an integer number of milliseconds in [500, 2000]. */
  function RandomDelay(r: real): (d: int)
    requires 0.0 <= r < 1.0
    ensures MIN_DELAY <= d <= MAX_DELAY
  {
    (r * (MAX_DELAY - MIN_DELAY + 1) as real).Floor + MIN_DELAY
  }

  /** Every delay in [500, 2000] is drawn for some r. */
  lemma RandomDelayOnto(d: int) returns (r: real)
    requires MIN_DELAY <= d <= MAX_DELAY
    ensures 0.0 <= r < 1.0 && RandomDelay(r) == d
  {
    r := (d - MIN_DELAY) as real / (MAX_DELAY - MIN_DELAY + 1) as real;
    assert r * (MAX_DELAY - MIN_DELAY + 1) as real == (d - MIN_DELAY) as real;
  }

  // ---------------------------------------------------------------------------
  // extractProducts, per card
  // ---------------------------------------------------------------------------

  const TITLE_MISSING := "Titre non disponible"
  const BRAND_MISSING := "Marque non disponible"
  const PRICE_MISSING := "Prix non disponible"
  const CONDITION_MISSING := "Condition non disponible"

  /**
   * What a product card offers: the textContent of each element found (None:
   * no element matched any of its selectors), the link's href and the image's src.
   */
  datatype ProductCard = ProductCard(
    title: Option<string>, brand: Option<string>, price: Option<string>, originalPrice: Option<string>,
    condition: Option<string>, link: Option<string>, image: Option<string>)

  /** The product object; the discount is the exact percentage before toFixed(0) and the '%'. */
  datatype Product = Product(
    title: string, brand: string, price: string, originalPrice: Option<string>, condition: string,
    link: Option<string>, image: Option<string>, discount: Option<real>)

  /** The trimmed text of an element, or the placeholder when there is none. */
  function TextOr(e: Option<string>, placeholder: string): (r: string)
    ensures e.None? ==> r == placeholder
    ensures e.Some? && r != "" ==> !IsJsSpace(r[0]) && !IsJsSpace(r[|r| - 1])
  {
    if e.Some? then JsTrim(e.value) else placeholder
  }

  predicate IsPriceChar(c: char) {
    IsDigit(c) || c == ',' || c == '.'
  }

  /** `.replace(/[^\d,.]/g, '').replace(',', '.')`: keep digits, ',' and '.', then turn the first ',' into '.'. */
  function JsCleanPrice(s: string): (r: string)
    ensures forall k :: 0 <= k < |r| ==> IsPriceChar(r[k])
  {
    ReplaceFirst(Filter(s, IsPriceChar), ',', '.')
  }

  /** parseFloat of the cleaned price; None stands for NaN. */
  function JsPrice(s: string): Option<real> {
    JsParseFloat(JsCleanPrice(s))
  }

  /** The discount, when both prices are truthy: see DiscountOf. */
  function Discount(price: string, originalPrice: Option<string>): (r: Option<real>)
    ensures r.Some? ==> price != "" && Filled(originalPrice)
  {
    if price != "" && Filled(originalPrice) then DiscountOf(JsPrice(price), JsPrice(originalPrice.value)) else None
  }

  /** The percentage off, when both prices read as numbers and the original one is positive. */
  function DiscountOf(current: Option<real>, original: Option<real>): (r: Option<real>)
    ensures r.Some? ==> current.Some? && original.Some? && original.value > 0.0 && r.value * original.value == (original.value - current.value) * 100.0
  {
    if current.Some? && original.Some? && original.value > 0.0 then
      Some((original.value - current.value) / original.value * 100.0)
    else
      None
  }

  /** The product object of one card. */
  function ExtractProduct(card: ProductCard): (p: Product)
    ensures p.originalPrice.Some? <==> card.originalPrice.Some?
    ensures p.link == card.link && p.image == card.image
    ensures p.discount.Some? ==> card.originalPrice.Some?
    ensures p.title == TextOr(card.title, TITLE_MISSING) && p.brand == TextOr(card.brand, BRAND_MISSING)
    ensures p.price == TextOr(card.price, PRICE_MISSING) && p.condition == TextOr(card.condition, CONDITION_MISSING)
    ensures p.originalPrice.Some? ==> p.originalPrice.value == JsTrim(card.originalPrice.value)
    ensures p.discount.Some? <==>
      p.price != "" && Filled(p.originalPrice) && JsPrice(p.price).Some? && JsPrice(p.originalPrice.value).Some?
      && JsPrice(p.originalPrice.value).value > 0.0
    ensures p.discount.Some? ==>
      p.discount.value == (JsPrice(p.originalPrice.value).value - JsPrice(p.price).value) / JsPrice(p.originalPrice.value).value * 100.0
    ensures p.discount.Some? ==> p.discount.value <= 100.0
  {
    var price := TextOr(card.price, PRICE_MISSING);
    var original := if card.originalPrice.Some? then Some(JsTrim(card.originalPrice.value)) else None;
    var p := Product(TextOr(card.title, TITLE_MISSING), TextOr(card.brand, BRAND_MISSING), price, original,
                     TextOr(card.condition, CONDITION_MISSING), card.link, card.image, Discount(price, original));
    ProductDiscount(p);
    p
  }

  /**
   * A discount exists exactly when both prices read as numbers and the
   * original one is positive, and it is never more than 100% when the current
   * price is not negative (prices read by parseFloat never are).
   */
  lemma DiscountBounds(current: Option<real>, original: Option<real>)
    ensures DiscountOf(current, original).Some? <==> current.Some? && original.Some? && original.value > 0.0
    ensures DiscountOf(current, original).Some? && current.value >= 0.0 ==> DiscountOf(current, original).value <= 100.0
  {
    if current.Some? && original.Some? && original.value > 0.0 && current.value >= 0.0 {
      var o := original.value;
      var c := current.value;
      var x := (o - c) / o;
      assert x * o == o - c;
    }
  }

  /** A product's discount is the share of its original price taken off, in percent, and never more than all of it. */
  lemma ProductDiscount(p: Product)
    requires p.discount == Discount(p.price, p.originalPrice)
    ensures p.discount.Some? <==>
      p.price != "" && Filled(p.originalPrice) && JsPrice(p.price).Some? && JsPrice(p.originalPrice.value).Some?
      && JsPrice(p.originalPrice.value).value > 0.0
    ensures p.discount.Some? ==>
      p.discount.value == (JsPrice(p.originalPrice.value).value - JsPrice(p.price).value) / JsPrice(p.originalPrice.value).value * 100.0
    ensures p.discount.Some? ==> p.discount.value <= 100.0
  {
    if p.originalPrice.Some? {
      DiscountBounds(JsPrice(p.price), JsPrice(p.originalPrice.value));
    }
  }

  /** parseFloat of a cleaned price is NaN when the text has no digit at all. */
  lemma JsPriceNeedsDigit(s: string)
    ensures JsPrice(s).Some? ==> DigitsOf(s) != []
  {
    var f := Filter(s, IsPriceChar);
    var c := JsCleanPrice(s);
    if JsPrice(s).Some? {
      var t := TrimStart(c, IsJsSpace);
      var ip := LeadingDigits(t);
      assert ip != [] || t[|ip|..][1..] != [];
      var k: nat := if ip != [] then 0 else |ip| + 1;
      assert IsDigit(t[k]);
      var i: nat := |c| - |t| + k;
      assert c[i] == t[k];
      assert c[i] == f[i];
      var j :| 0 <= j < |s| && s[j] == f[i];
      FilterKeepsWitness(s, IsDigit, j);
    }
  }

  /** A card without a price element shows "Prix non disponible" and never gets a discount. */
  lemma MissingPriceNoDiscount(card: ProductCard)
    requires card.price.None?
    ensures ExtractProduct(card).price == PRICE_MISSING && ExtractProduct(card).discount.None?
  {
    assert DigitsOf(PRICE_MISSING) == [] by {
      FilterDropsAll(PRICE_MISSING, IsDigit);
    }
    JsPriceNeedsDigit(PRICE_MISSING);
  }

  /**
   * A missing title, brand, price or condition element gives its placeholder;
   * a found one gives its text without surrounding whitespace: the text is
   * whitespace, the trimmed text, whitespace.
   */
  lemma TextOrOf(e: Option<string>, placeholder: string) returns (i: nat, t: string)
    ensures t == TextOr(e, placeholder)
    ensures e.None? ==> t == placeholder
    ensures e.Some? ==> var s := e.value;
      i + |t| <= |s| && s[i..i + |t|] == t && AllSatisfy(s[..i], IsJsSpace) && AllSatisfy(s[i + |t|..], IsJsSpace)
  {
    if e.Some? {
      i, t := StripSpan(e.value, IsJsSpace);
    } else {
      i, t := 0, placeholder;
    }
  }


  /**
   * The two readers disagree on a comma between digits: Python drops it and
   * reads a thousands separator ("1,250" is 1250, "99,90" is 9990), while the
   * prototype turns it into a decimal point ("1,250" is 1.25, "99,90" is 99.9).
   */
  lemma CommaReading(a: string, b: string)
    requires AllDigits(a) && AllDigits(b) && a != [] && b != []
    ensures JsPrice(a + "," + b) == Some(Fixed(a, b))
    ensures DigitsOf(a + "," + b) == a + b
  {
    CleanComma(a, b);
    assert a + "." + b == a + "." + b + "";
    JsParseFloatPrefix(a, b, "");
    DigitsHaveComma(a, b);
  }

  /** The prototype's cleaning turns the comma of `a,b` into a decimal point. */
  lemma CleanComma(a: string, b: string)
    requires AllDigits(a) && AllDigits(b)
    ensures JsCleanPrice(a + "," + b) == a + "." + b
  {
    var s := a + "," + b;
    KeepPriceChars(a, b);
    assert IndexOf(s, ',') == |a| by {
      forall k | 0 <= k < |a| ensures s[k] != ',' { assert s[k] == a[k] && IsDigit(a[k]); }
    }
    assert s[..|a|] == a && s[|a| + 1..] == b;
    assert ReplaceFirst(s, ',', '.') == a + "." + b;
  }

  lemma KeepPriceChars(a: string, b: string)
    requires AllDigits(a) && AllDigits(b)
    ensures Filter(a + "," + b, IsPriceChar) == a + "," + b
  {
    var s := a + "," + b;
    forall k | 0 <= k < |s| ensures IsPriceChar(s[k]) {
      if k < |a| { assert s[k] == a[k]; } else if k > |a| { assert s[k] == b[k - |a| - 1]; }
    }
    FilterKeepsAll(s, IsPriceChar);
  }

  /** The digits of `a,b` are those of a then those of b. */
  lemma DigitsHaveComma(a: string, b: string)
    requires AllDigits(a) && AllDigits(b)
    ensures DigitsOf(a + "," + b) == a + b
  {
    FilterSplice(a, ',', b, IsDigit);
  }

}
