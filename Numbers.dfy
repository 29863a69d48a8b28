/**
 * Decimal numerals as the scraper reads them: Python's float() on a cleaned
 * price, JavaScript's Number() on a page limit and parseFloat() on a cleaned
 * price. Values are exact reals; binary floating point is not modelled.
 */
module Numbers {
  import opened Wrappers
  import opened Text

  function Pow10(n: nat): (r: nat)
    ensures r >= 1
  {
    if n == 0 then 1 else 10 * Pow10(n - 1)
  }

  /** The value of the numeral `ip.fp`. */
  function Fixed(ip: string, fp: string): (v: real)
    requires AllDigits(ip) && AllDigits(fp)
    ensures v >= 0.0
  {
    DigitsValue(ip) as real + DigitsValue(fp) as real / Pow10(|fp|) as real
  }

  /** The decimal digits of s, in order. */
  function DigitsOf(s: string): string {
    Filter(s, IsDigit)
  }

  /**
   * An unsigned decimal numeral: digits with at most one '.', and at least one
   * digit in all ("5", "5.", ".5", "5.25"); anything else is rejected.
   */
  function ParseUnsigned(s: string): (r: Option<real>)
    ensures r.Some? ==> r.value >= 0.0
  {
    var i := IndexOf(s, '.');
    var ip := s[..i];
    var fp := if i < |s| then s[i + 1..] else "";
    if AllDigits(ip) && AllDigits(fp) && ip + fp != [] then Some(Fixed(ip, fp)) else None
  }

  /** A numeral with an optional leading '+' or '-'. */
  function ParseSigned(s: string): (r: Option<real>)
    ensures s != [] && s[0] == '-' && r.Some? ==> r.value <= 0.0
    ensures (s == [] || s[0] != '-') && r.Some? ==> r.value >= 0.0
  {
    if s != [] && (s[0] == '+' || s[0] == '-') then
      match ParseUnsigned(s[1..])
      case None => None
      case Some(v) => Some(if s[0] == '-' then -v else v)
    else
      ParseUnsigned(s)
  }

  /** float() of a text without '-' is never negative. */
  lemma PyFloatUnsigned(s: string)
    requires '-' !in s
    ensures PyFloat(s).Some? ==> PyFloat(s).value >= 0.0
  {
    var t := PyStrip(s);
    if t != [] {
      StripWithin(s, IsPySpace);
      assert t[0] in s;
    }
  }

  /** A '-' before a numeral negates its reading. */
  lemma NegNumeral(t: string)
    ensures ParseSigned("-" + t) == (if ParseUnsigned(t).Some? then Some(-ParseUnsigned(t).value) else None)
  {
    assert ("-" + t)[0] == '-' && ("-" + t)[1..] == t;
  }

  /** A '+' before a numeral leaves its reading unchanged. */
  lemma PosNumeral(t: string)
    ensures ParseSigned("+" + t) == ParseUnsigned(t)
  {
    assert ("+" + t)[0] == '+' && ("+" + t)[1..] == t;
  }

  /** Python's float(s): surrounding whitespace is ignored; None stands for ValueError. */
  function PyFloat(s: string): Option<real> {
    ParseSigned(PyStrip(s))
  }

  /** JavaScript's Number(s); None stands for NaN. A blank string is 0. */
  function JsNumber(s: string): Option<real> {
    var t := JsTrim(s);
    if t == [] then Some(0.0) else ParseSigned(t)
  }

  /** The longest run of digits at the start of s. */
  function LeadingDigits(s: string): (r: string)
    ensures AllDigits(r) && StartsWith(s, r)
    ensures |r| == |s| || !IsDigit(s[|r|])
  {
    if s != [] && IsDigit(s[0]) then [s[0]] + LeadingDigits(s[1..]) else []
  }

  /**
   * JavaScript's parseFloat(s): after leading whitespace, the longest prefix
   * that is a numeral; None stands for NaN.
   */
  function JsParseFloat(s: string): (r: Option<real>)
    ensures r.Some? ==> r.value >= 0.0
  {
    var t := TrimStart(s, IsJsSpace);
    var ip := LeadingDigits(t);
    var rest := t[|ip|..];
    var fp := if rest != [] && rest[0] == '.' then LeadingDigits(rest[1..]) else [];
    if ip == [] && fp == [] then None else Some(Fixed(ip, fp))
  }

  // ---------------------------------------------------------------------------
  // What the parsers accept
  // ---------------------------------------------------------------------------

  lemma DigitsHaveNoDot(s: string)
    requires AllDigits(s)
    ensures '.' !in s
  {
    forall k | 0 <= k < |s|
      ensures s[k] != '.'
    {
      assert IsDigit(s[k]);
    }
  }

  /** Every numeral `ip.fp` and `ip` reads back as its value. */
  lemma ParseNumeral(ip: string, fp: string)
    requires AllDigits(ip) && AllDigits(fp) && ip != []
    ensures ParseUnsigned(ip + "." + fp) == Some(Fixed(ip, fp))
    ensures ParseUnsigned(ip) == Some(DigitsValue(ip) as real)
  {
    DigitsHaveNoDot(ip);
    var s := ip + "." + fp;
    assert s[|ip|] == '.';
    assert forall k :: 0 <= k < |ip| ==> s[k] == ip[k];
    assert IndexOf(s, '.') == |ip|;
    assert s[..|ip|] == ip && s[|ip| + 1..] == fp;
    assert IndexOf(ip, '.') == |ip|;
    assert ip[..|ip|] == ip;
    FixedWhole(ip);
  }

  /** A numeral that starts and ends with a digit is left alone by float()'s stripping and sign check. */
  lemma PyFloatOfNumeral(s: string)
    requires s != [] && IsDigit(s[0]) && IsDigit(s[|s| - 1])
    ensures PyFloat(s) == ParseUnsigned(s)
  {
    StripAround([], s, [], IsPySpace);
    assert [] + s + [] == s;
    assert PyStrip(s) == s;
  }

  /** str(n) reads back as n under float(). */
  lemma PyFloatOfShowNat(n: nat)
    ensures PyFloat(ShowNat(n)) == Some(n as real)
  {
    var s := ShowNat(n);
    PyFloatOfNumeral(s);
    ParseNumeral(s, "");
  }

  /** A numeral with a fractional part reads back exactly under float(). */
  lemma PyFloatOfDecimal(ip: string, fp: string)
    requires AllDigits(ip) && AllDigits(fp) && ip != [] && fp != []
    ensures PyFloat(ip + "." + fp) == Some(Fixed(ip, fp))
  {
    var s := ip + "." + fp;
    assert s[0] == ip[0] && s[|s| - 1] == fp[|fp| - 1];
    PyFloatOfNumeral(s);
    ParseNumeral(ip, fp);
  }

  /** Whatever float() accepts holds a digit: here is one. */
  lemma UnsignedDigitAt(s: string) returns (k: nat)
    requires ParseUnsigned(s).Some?
    ensures k < |s| && IsDigit(s[k])
  {
    var i := IndexOf(s, '.');
    if i > 0 {
      assert IsDigit(s[..i][0]);
      k := 0;
    } else {
      var fp := if i < |s| then s[i + 1..] else "";
      assert fp != [] && IsDigit(fp[0]);
      k := i + 1;
    }
  }

  lemma SignedHasDigit(t: string)
    requires ParseSigned(t).Some?
    ensures DigitsOf(t) != []
  {
    if t != [] && (t[0] == '+' || t[0] == '-') {
      SignedTailHasDigit(t);
    } else {
      var k := UnsignedDigitAt(t);
      FilterKeepsWitness(t, IsDigit, k);
    }
  }

  lemma SignedTailHasDigit(t: string)
    requires t != [] && ParseUnsigned(t[1..]).Some?
    ensures DigitsOf(t) != []
  {
    var k := UnsignedDigitAt(t[1..]);
    assert t[k + 1] == t[1..][k];
    FilterKeepsWitness(t, IsDigit, k + 1);
  }

  /** float() of a string without a single digit raises, whatever else the string holds. */
  lemma PyFloatNeedsDigit(s: string)
    ensures PyFloat(s).Some? ==> DigitsOf(s) != []
  {
    if PyFloat(s).Some? {
      StrippedHasDigit(s, PyStrip(s));
    }
  }

  lemma StrippedHasDigit(s: string, t: string)
    requires t == PyStrip(s) && ParseSigned(t).Some?
    ensures DigitsOf(s) != []
  {
    SignedHasDigit(t);
    FilterStrip(s, IsPySpace, IsDigit);
  }

  lemma {:induction false} LeadingDigitsOf(ds: string, tail: string)
    requires AllDigits(ds)
    requires tail == [] || !IsDigit(tail[0])
    ensures LeadingDigits(ds + tail) == ds
  {
    if ds == [] {
      assert ds + tail == tail;
    } else {
      assert (ds + tail)[0] == ds[0] && (ds + tail)[1..] == ds[1..] + tail;
      LeadingDigitsOf(ds[1..], tail);
      assert [ds[0]] + ds[1..] == ds;
    }
  }

  /** parseFloat skips no whitespace in front of a numeral that starts with a digit. */
  lemma NoLeadingJsSpace(s: string)
    requires s != [] && IsDigit(s[0])
    ensures TrimStart(s, IsJsSpace) == s
  {
    assert s == [] + s;
    TrimStartAfter([], s, IsJsSpace);
  }

  /** parseFloat reads the numeral `ip.fp` at the start of s and ignores what follows it. */
  lemma JsParseFloatPrefix(ip: string, fp: string, tail: string)
    requires AllDigits(ip) && AllDigits(fp) && ip != []
    requires tail == [] || !IsDigit(tail[0])
    ensures JsParseFloat(ip + "." + fp + tail) == Some(Fixed(ip, fp))
  {
    var rest := "." + (fp + tail);
    var s := ip + rest;
    assert ip + "." + fp + tail == s;
    assert s[0] == ip[0] && s[|ip|..] == rest && rest[1..] == fp + tail;
    NoLeadingJsSpace(s);
    LeadingDigitsOf(ip, rest);
    LeadingDigitsOf(fp, tail);
    JsParseFloatOfParts(s, ip, fp);
  }

  /** parseFloat once the leading digits and the digits after the '.' are known. */
  lemma JsParseFloatOfParts(s: string, ip: string, fp: string)
    requires TrimStart(s, IsJsSpace) == s && LeadingDigits(s) == ip && ip != []
    requires |ip| < |s| && s[|ip|] == '.' && LeadingDigits(s[|ip|..][1..]) == fp
    ensures JsParseFloat(s) == Some(Fixed(ip, fp))
  {
  }

  /** parseFloat reads a whole number that is followed by neither a digit nor a '.'. */
  lemma JsParseFloatWhole(ip: string, tail: string)
    requires AllDigits(ip) && ip != []
    requires tail == [] || (!IsDigit(tail[0]) && tail[0] != '.')
    ensures JsParseFloat(ip + tail) == Some(DigitsValue(ip) as real)
  {
    var s := ip + tail;
    assert TrimStart(s, IsJsSpace) == s by { NoLeadingJsSpace(s); }
    assert LeadingDigits(s) == ip by { LeadingDigitsOf(ip, tail); }
    assert s[|ip|..] == tail;
    FixedWhole(ip);
  }

  lemma FixedWhole(ip: string)
    requires AllDigits(ip)
    ensures Fixed(ip, "") == DigitsValue(ip) as real
  {
    assert DigitsValue("") == 0 && Pow10(0) == 1;
  }
}
