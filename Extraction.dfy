/**
 * Field extraction of VestiaireScraper._extract_item_data_playwright and
 * _extract_item_data_bs4: one product card in, one item record out.
 */
module Extraction {
  import opened Wrappers
  import opened Text
  import opened Numbers
  import QueryBuilder

  const SOURCE := "Vestiaire Collective"
  const NOT_AVAILABLE := "N/A"
  /** The raw price text used when a card has no price element. */
  const DEFAULT_PRICE := "0"

  /**
   * One text read from a card: no such element, the element's text, or a read
   * that fails (a Playwright text_content() that gives None or raises, which
   * the extractor's catch-all turns into an empty record).
   */
  datatype Field = Missing | Found(text: string) | Unreadable

  /** A Playwright card; `link` is the href of the link element (Missing: no element or no href). */
  datatype Card = Card(title: Field, brand: Field, price: Field, link: Field)

  /** A BeautifulSoup card: `.text` always gives a string, so no read fails. */
  datatype SoupCard = SoupCard(title: Option<string>, brand: Option<string>, price: Option<string>, link: Option<string>)

  datatype Currency = EUR | USD

  /** `Empty` is the `{}` returned when extraction fails; the timestamp is not modelled. */
  datatype Item =
    | Empty
    | Record(title: string, brand: string, price: real, currency: Currency, link: Option<string>, source: string)

  /** The characters a price may carry around its number and still be read. */
  predicate IsDecoration(c: char) {
    IsPySpace(c) || c == '€' || c == '$'
  }

  /** Remove every '€' and '$', strip, then remove every ','. */
  function CleanPrice(raw: string): string {
    Without(PyStrip(Without(Without(raw, '€'), '$')), ',')
  }

  /** The cleaned text only keeps characters of the raw text, and none of '€', '$' and ','. */
  lemma CleanPriceChars(raw: string)
    ensures var r := CleanPrice(raw);
      forall k :: 0 <= k < |r| ==> r[k] in raw && r[k] != '€' && r[k] != '$' && r[k] != ','
  {
    var a := Without(raw, '€');
    var b := Without(a, '$');
    var t := PyStrip(b);
    var r := Without(t, ',');
    StripWithin(b, IsPySpace);
    forall k | 0 <= k < |r| ensures r[k] in raw && r[k] != '€' && r[k] != '$' && r[k] != ',' {
      var c := r[k];
      assert c in t && c != ',';
      var j :| 0 <= j < |t| && t[j] == c;
      assert c in b;
      var i :| 0 <= i < |b| && b[i] == c;
      assert c in a && c != '$';
      var h :| 0 <= h < |a| && a[h] == c;
      assert c in raw && c != '€';
    }
  }

  /** float() of the cleaned text, 0.0 when float() raises ValueError. */
  function ParsePrice(raw: string): real {
    PyFloat(CleanPrice(raw)).GetOr(0.0)
  }

  function CurrencyOf(raw: string): (r: Currency)
    ensures r == EUR <==> '€' in raw
  {
    if '€' in raw then EUR else USD
  }

  /** A non-empty href that does not start with "http" is appended to BASE_URL as is. */
  function AbsoluteLink(href: Option<string>): (r: Option<string>)
    ensures r.None? <==> href.None?
    ensures r.Some? && r.value != [] ==> StartsWith(r.value, "http")
  {
    match href
    case None => None
    case Some(h) =>
      if h != [] && !StartsWith(h, "http") then
        BaseUrlIsHttp(h);
        Some(QueryBuilder.BASE_URL + h)
      else
        href
  }

  lemma BaseUrlIsHttp(h: string)
    ensures StartsWith(QueryBuilder.BASE_URL + h, "http")
  {
    assert (QueryBuilder.BASE_URL + h)[..4] == QueryBuilder.BASE_URL[..4];
  }

  function FieldOr(f: Field, default: string): string {
    if f.Found? then f.text else default
  }

  /** A title or brand: the stripped text, or "N/A" (itself stripped) when there is no element. */
  function Name(f: Field): string {
    PyStrip(FieldOr(f, NOT_AVAILABLE))
  }

  function LinkOf(f: Field): Option<string> {
    if f.Found? then Some(f.text) else None
  }

  /** The record for one Playwright card. */
  function ExtractItem(card: Card): (r: Item)
    ensures r.Empty? <==> card.title.Unreadable? || card.brand.Unreadable? || card.price.Unreadable? || card.link.Unreadable?
    ensures r.Record? ==> r.source == SOURCE
    ensures r.Record? ==> (r.currency == EUR <==> card.price.Found? && '€' in card.price.text)
    ensures r.Record? ==> r.link == AbsoluteLink(LinkOf(card.link))
    ensures r.Record? ==> r.title == Name(card.title) && r.brand == Name(card.brand)
    ensures r.Record? ==> r.price == ParsePrice(FieldOr(card.price, DEFAULT_PRICE))
  {
    if card.title.Unreadable? || card.brand.Unreadable? || card.price.Unreadable? || card.link.Unreadable? then
      Empty
    else
      var raw := FieldOr(card.price, DEFAULT_PRICE);
      MissingPriceIsZero();
      Record(
        Name(card.title),
        Name(card.brand),
        ParsePrice(raw),
        CurrencyOf(raw),
        AbsoluteLink(LinkOf(card.link)),
        SOURCE)
  }

  function AsField(s: Option<string>): (f: Field)
    ensures !f.Unreadable?
  {
    if s.Some? then Found(s.value) else Missing
  }

  function FromSoup(card: SoupCard): Card {
    Card(AsField(card.title), AsField(card.brand), AsField(card.price), AsField(card.link))
  }

  /** The record for one BeautifulSoup card: the same rules as for a Playwright card. */
  function ExtractSoupItem(card: SoupCard): (r: Item)
    ensures r.Record? && r.source == SOURCE
    ensures r.title == PyStrip(if card.title.Some? then card.title.value else NOT_AVAILABLE)
    ensures r.brand == PyStrip(if card.brand.Some? then card.brand.value else NOT_AVAILABLE)
    ensures r.price == ParsePrice(if card.price.Some? then card.price.value else DEFAULT_PRICE)
    ensures r.currency == EUR <==> card.price.Some? && '€' in card.price.value
    ensures r.link == AbsoluteLink(card.link)
  {
    ExtractItem(FromSoup(card))
  }

  /** A BeautifulSoup card always gives a full record, never `{}`. */
  lemma SoupItemIsRecord(card: SoupCard)
    ensures ExtractSoupItem(card).Record?
    ensures ExtractSoupItem(card).link == AbsoluteLink(card.link)
  {
    var c := FromSoup(card);
    assert !c.title.Unreadable? && !c.brand.Unreadable? && !c.price.Unreadable? && !c.link.Unreadable?;
  }

  // ---------------------------------------------------------------------------
  // Prices
  // ---------------------------------------------------------------------------

  /** Removing '€', '$' and ',' and stripping whitespace never touches a digit. */
  lemma CleanPriceKeepsDigits(raw: string)
    ensures DigitsOf(CleanPrice(raw)) == DigitsOf(raw)
  {
    var a := Without(raw, '€');
    var b := Without(a, '$');
    WithoutKeepsOthers(raw, '€', IsDigit);
    WithoutKeepsOthers(a, '$', IsDigit);
    FilterStrip(b, IsPySpace, IsDigit);
    WithoutKeepsOthers(PyStrip(b), ',', IsDigit);
  }

  /** A price text without a single digit is worth 0.0, whatever else it holds ("N/A", "Prix sur demande"). */
  lemma PriceNeedsDigit(raw: string)
    ensures DigitsOf(raw) == [] ==> ParsePrice(raw) == 0.0
  {
    CleanPriceKeepsDigits(raw);
    PyFloatNeedsDigit(CleanPrice(raw));
  }

  /** What is left of decoration once '€' and '$' are gone is whitespace. */
  lemma DecorationIsSpace(s: string)
    requires AllSatisfy(s, IsDecoration)
    ensures AllSatisfy(Without(Without(s, '€'), '$'), IsPySpace)
  {
    var a := Without(s, '€');
    var b := Without(a, '$');
    forall k | 0 <= k < |b|
      ensures IsPySpace(b[k])
    {
      assert b[k] in a && b[k] != '$';
      var i :| 0 <= i < |a| && a[i] == b[k];
      assert a[i] in s && a[i] != '€';
      var j :| 0 <= j < |s| && s[j] == a[i];
      assert IsDecoration(s[j]);
    }
  }

  /** Cleaning a number surrounded by currency signs and whitespace leaves the number without its commas. */
  lemma CleanDecorated(pre: string, n: string, post: string)
    requires AllSatisfy(pre, IsDecoration) && AllSatisfy(post, IsDecoration)
    requires n != [] && !IsPySpace(n[0]) && !IsPySpace(n[|n| - 1])
    requires '€' !in n && '$' !in n
    ensures CleanPrice(pre + n + post) == Without(n, ',')
  {
    var a := Without(Without(pre, '€'), '$');
    var b := Without(Without(post, '€'), '$');
    assert Without(Without(pre + n + post, '€'), '$') == a + n + b by {
      WithoutConcat(pre + n, post, '€');
      WithoutConcat(pre, n, '€');
      WithoutAbsent(n, '€');
      WithoutConcat(Without(pre, '€') + n, Without(post, '€'), '$');
      WithoutConcat(Without(pre, '€'), n, '$');
      WithoutAbsent(n, '$');
    }
    DecorationIsSpace(pre);
    DecorationIsSpace(post);
    StripAround(a, n, b, IsPySpace);
  }

  /** Digits grouped by commas, as in "1,250". */
  predicate IsGroupedNumber(n: string) {
    n != [] && IsDigit(n[0]) && IsDigit(n[|n| - 1]) && AllSatisfy(n, c => IsDigit(c) || c == ',')
  }

  /** A comma-grouped number, with currency signs and whitespace around it, is read as its digits ("1,250 €" is 1250). */
  lemma GroupedPrice(pre: string, n: string, post: string)
    requires AllSatisfy(pre, IsDecoration) && AllSatisfy(post, IsDecoration)
    requires IsGroupedNumber(n)
    ensures ParsePrice(pre + n + post) == DigitsValue(DigitsOf(n)) as real
  {
    assert '€' !in n && '$' !in n by {
      forall k | 0 <= k < |n| ensures n[k] != '€' && n[k] != '$' {
        assert IsDigit(n[k]) || n[k] == ',';
      }
    }
    CleanDecorated(pre, n, post);
    var ds := Without(n, ',');
    assert ds == DigitsOf(n) by {
      FilterAgree(n, x => x != ',', IsDigit);
    }
    assert ds != [] && IsDigit(ds[0]) && IsDigit(ds[|ds| - 1]) by {
      FilterKeepsWitness(n, IsDigit, 0);
    }
    PyFloatOfNumeral(ds);
    ParseNumeral(ds, "");
  }

  /** Stripping leaves alone a text that neither starts nor ends with whitespace. */
  lemma StripBare(n: string)
    requires n != [] && !IsPySpace(n[0]) && !IsPySpace(n[|n| - 1])
    ensures PyStrip(n) == n
  {
    assert [] + n + [] == n;
    StripAround([], n, [], IsPySpace);
  }

  /** Only a price text holding a '-' reads as a negative number. */
  lemma PriceSign(raw: string)
    ensures '-' !in raw ==> ParsePrice(raw) >= 0.0
  {
    if '-' !in raw {
      var c := CleanPrice(raw);
      assert '-' !in c by {
        CleanPriceChars(raw);
      }
      PyFloatUnsigned(c);
    }
  }

  /** A price with a '-' before its digits, such as "-5", is read as a negative number: nothing rejects it. */
  lemma NegativePrice(pre: string, ip: string, post: string)
    requires AllSatisfy(pre, IsDecoration) && AllSatisfy(post, IsDecoration)
    requires AllDigits(ip) && ip != []
    ensures ParsePrice(pre + "-" + ip + post) == -(DigitsValue(ip) as real)
  {
    var n := "-" + ip;
    assert '€' !in n && '$' !in n && ',' !in n by {
      forall k | 0 <= k < |n| ensures n[k] != '€' && n[k] != '$' && n[k] != ',' {
        assert k == 0 || IsDigit(ip[k - 1]);
      }
    }
    assert n[0] == '-' && n[|n| - 1] == ip[|ip| - 1];
    assert pre + "-" + ip + post == pre + n + post;
    CleanDecorated(pre, n, post);
    WithoutAbsent(n, ',');
    StripBare(n);
    NegNumeral(ip);
    ParseNumeral(ip, "");
  }

  /** A decimal price such as "€ 99.90" is read exactly. */
  lemma DecimalPrice(pre: string, ip: string, fp: string, post: string)
    requires AllSatisfy(pre, IsDecoration) && AllSatisfy(post, IsDecoration)
    requires AllDigits(ip) && AllDigits(fp) && ip != [] && fp != []
    ensures ParsePrice(pre + (ip + "." + fp) + post) == Fixed(ip, fp)
  {
    var n := ip + "." + fp;
    assert n[0] == ip[0] && n[|n| - 1] == fp[|fp| - 1];
    assert '€' !in n && '$' !in n && ',' !in n by {
      forall k | 0 <= k < |n| ensures n[k] != '€' && n[k] != '$' && n[k] != ',' {
        if k < |ip| { assert n[k] == ip[k]; } else if k > |ip| { assert n[k] == fp[k - |ip| - 1]; }
      }
    }
    CleanDecorated(pre, n, post);
    WithoutAbsent(n, ',');
    PyFloatOfDecimal(ip, fp);
  }

  /**
   * Digits grouped by a space, as in "1 250 €", are not a number once the
   * space survives the cleaning, and such a price is read as 0.0.
   */
  lemma SpaceGroupedPrice(high: string, low: string, post: string)
    requires AllDigits(high) && AllDigits(low) && high != [] && low != []
    requires AllSatisfy(post, IsDecoration)
    ensures ParsePrice(high + " " + low + post) == 0.0
  {
    var n := high + " " + low;
    SpacedNumeral(high, low);
    assert [] + n + post == high + " " + low + post;
    CleanDecorated([], n, post);
    WithoutAbsent(n, ',');
    PyFloatOfNumeral(n);
  }

  /** Two runs of digits with a space between hold no sign, comma or point, and are not a numeral. */
  lemma SpacedNumeral(high: string, low: string)
    requires AllDigits(high) && AllDigits(low) && high != [] && low != []
    ensures var n := high + " " + low;
      n[0] == high[0] && n[|n| - 1] == low[|low| - 1]
      && '€' !in n && '$' !in n && ',' !in n && ParseUnsigned(n) == None
  {
    var n := high + " " + low;
    assert n[0] == high[0] && n[|n| - 1] == low[|low| - 1] && n[|high|] == ' ';
    forall k | 0 <= k < |n| ensures n[k] != '€' && n[k] != '$' && n[k] != ',' && n[k] != '.' {
      if k < |high| { assert n[k] == high[k]; } else if k > |high| { assert n[k] == low[k - |high| - 1]; }
    }
    assert IndexOf(n, '.') == |n|;
    assert n[..|n|] == n && !IsDigit(n[|high|]);
  }

  /** With no price element the raw text is "0": price 0.0 in USD. */
  lemma MissingPriceIsZero()
    ensures ParsePrice(DEFAULT_PRICE) == 0.0
    ensures CurrencyOf(DEFAULT_PRICE) == USD
  {
    assert CleanPrice(DEFAULT_PRICE) == DEFAULT_PRICE by {
      assert [] + DEFAULT_PRICE + [] == DEFAULT_PRICE;
      CleanDecorated([], DEFAULT_PRICE, []);
      WithoutAbsent(DEFAULT_PRICE, ',');
    }
    assert DEFAULT_PRICE == ShowNat(0);
    PyFloatOfShowNat(0);
  }

  /** "N/A" is already stripped, so a missing title or brand reads "N/A". */
  lemma NotAvailableIsStripped()
    ensures PyStrip(NOT_AVAILABLE) == NOT_AVAILABLE
  {
    assert [] + NOT_AVAILABLE + [] == NOT_AVAILABLE;
    StripAround([], NOT_AVAILABLE, [], IsPySpace);
  }

  /** The price of an extracted record: 0.0 in USD without a price element, 0.0 without a digit. */
  lemma ExtractedPrice(card: Card)
    requires ExtractItem(card).Record?
    ensures card.price.Missing? ==> ExtractItem(card).price == 0.0 && ExtractItem(card).currency == USD
    ensures card.price.Found? && DigitsOf(card.price.text) == [] ==> ExtractItem(card).price == 0.0
  {
    MissingPriceIsZero();
    if card.price.Found? {
      PriceNeedsDigit(card.price.text);
    }
  }

  /**
   * A title or brand without an element reads "N/A"; a found one is its text
   * without the surrounding whitespace: the text is whitespace, the name,
   * whitespace (Strip's own contract adds that the name neither starts nor
   * ends with whitespace).
   */
  lemma NameOf(f: Field) returns (i: nat, t: string)
    ensures t == Name(f)
    ensures f.Missing? ==> t == NOT_AVAILABLE
    ensures f.Found? ==> var s := f.text;
      i + |t| <= |s| && s[i..i + |t|] == t && AllSatisfy(s[..i], IsPySpace) && AllSatisfy(s[i + |t|..], IsPySpace)
  {
    if f.Found? {
      assert Name(f) == Strip(f.text, IsPySpace);
      i, t := StripSpan(f.text, IsPySpace);
    } else {
      NotAvailableIsStripped();
      i, t := 0, Name(f);
    }
  }


  // ---------------------------------------------------------------------------
  // Links
  // ---------------------------------------------------------------------------

  /** Normalising a normalised link changes nothing. */
  lemma AbsoluteLinkIdempotent(href: Option<string>)
    ensures AbsoluteLink(AbsoluteLink(href)) == AbsoluteLink(href)
  {
  }

  /** A relative href is kept whole after BASE_URL, with no '/' inserted ("bags/1" gives ".combags/1"). */
  lemma RelativeLink(h: string)
    requires h != [] && !StartsWith(h, "http")
    ensures var r := AbsoluteLink(Some(h)).value;
      StartsWith(r, QueryBuilder.BASE_URL) && r[|QueryBuilder.BASE_URL|..] == h
  {
  }

  /** An href that already starts with "http", an empty href and no href pass through unchanged. */
  lemma LinkPassesThrough(href: Option<string>)
    requires href.None? || href.value == [] || StartsWith(href.value, "http")
    ensures AbsoluteLink(href) == href
  {
  }
}
