/**
 * The string operations the scraper relies on, in both of its languages:
 * Python's str.strip / replace / lower / startswith / join and float()'s
 * whitespace, and JavaScript's trim / replace / startsWith / join.
 */
module Text {

  /** Python's str.isspace(): what str.strip() and float() discard. */
  predicate IsPySpace(c: char) {
    ('\t' <= c <= '\r') || ('\U{1C}' <= c <= ' ') || c == '\U{85}' || c == '\U{A0}'
    || c == '\U{1680}' || ('\U{2000}' <= c <= '\U{200A}') || c == '\U{2028}' || c == '\U{2029}'
    || c == '\U{202F}' || c == '\U{205F}' || c == '\U{3000}'
  }

  /** ECMAScript WhiteSpace and LineTerminator: what String.prototype.trim() discards. */
  predicate IsJsSpace(c: char) {
    ('\t' <= c <= '\r') || c == ' ' || c == '\U{A0}' || c == '\U{1680}'
    || ('\U{2000}' <= c <= '\U{200A}') || c == '\U{2028}' || c == '\U{2029}'
    || c == '\U{202F}' || c == '\U{205F}' || c == '\U{3000}' || c == '\U{FEFF}'
  }

  predicate IsDigit(c: char) {
    '0' <= c <= '9'
  }

  predicate AllSatisfy(s: string, p: char -> bool) {
    forall k :: 0 <= k < |s| ==> p(s[k])
  }

  predicate AllDigits(s: string) {
    forall k :: 0 <= k < |s| ==> IsDigit(s[k])
  }

  predicate StartsWith(s: string, prefix: string) {
    |prefix| <= |s| && s[..|prefix|] == prefix
  }

  // ---------------------------------------------------------------------------
  // Filtering: Python's s.replace(c, "") and JavaScript's s.replace(/[^…]/g, '')
  // ---------------------------------------------------------------------------

  /** The characters of s that satisfy p, in their original order. */
  function Filter(s: string, p: char -> bool): (r: string)
    ensures |r| <= |s|
    ensures forall k :: 0 <= k < |r| ==> p(r[k]) && r[k] in s
  {
    if s == [] then []
    else
      assert s == [s[0]] + s[1..];
      (if p(s[0]) then [s[0]] else []) + Filter(s[1..], p)
  }

  /** s with every occurrence of c removed. */
  function Without(s: string, c: char): (r: string)
    ensures c !in r
  {
    Filter(s, x => x != c)
  }

  lemma {:induction false} FilterConcat(a: string, b: string, p: char -> bool)
    ensures Filter(a + b, p) == Filter(a, p) + Filter(b, p)
  {
    if a == [] {
      assert a + b == b;
    } else {
      var head := if p(a[0]) then [a[0]] else [];
      assert (a + b)[0] == a[0];
      assert (a + b)[1..] == a[1..] + b;
      FilterConcat(a[1..], b, p);
      calc {
        Filter(a + b, p);
        head + Filter(a[1..] + b, p);
        head + (Filter(a[1..], p) + Filter(b, p));
        (head + Filter(a[1..], p)) + Filter(b, p);
      }
    }
  }

  lemma {:induction false} FilterKeepsAll(s: string, p: char -> bool)
    requires AllSatisfy(s, p)
    ensures Filter(s, p) == s
  {
    if s != [] {
      FilterKeepsAll(s[1..], p);
    }
  }

  lemma {:induction false} FilterDropsAll(s: string, p: char -> bool)
    requires forall k :: 0 <= k < |s| ==> !p(s[k])
    ensures Filter(s, p) == []
  {
    if s != [] {
      FilterDropsAll(s[1..], p);
    }
  }

  /** Filtering two runs that pass, around one character that does not, joins the two runs. */
  lemma {:induction false} FilterSplice(a: string, x: char, b: string, p: char -> bool)
    requires AllSatisfy(a, p) && AllSatisfy(b, p) && !p(x)
    ensures Filter(a + [x] + b, p) == a + b
  {
    var s := a + [x] + b;
    if a == [] {
      assert s == [x] + b && s[1..] == b;
      FilterKeepsAll(b, p);
    } else {
      assert s[0] == a[0] && s[1..] == a[1..] + [x] + b;
      FilterSplice(a[1..], x, b, p);
      assert a + b == [a[0]] + (a[1..] + b);
    }
  }



  /** A character that satisfies p survives the filter. */
  lemma {:induction false} FilterKeepsWitness(s: string, p: char -> bool, k: nat)
    requires k < |s| && p(s[k])
    ensures Filter(s, p) != []
  {
    if k > 0 {
      FilterKeepsWitness(s[1..], p, k - 1);
    }
  }

  /** Filtering twice, the second time more strictly, is filtering once strictly. */
  lemma {:induction false} FilterFilter(s: string, p: char -> bool, q: char -> bool)
    requires forall x :: q(x) ==> p(x)
    ensures Filter(Filter(s, p), q) == Filter(s, q)
  {
    if s != [] {
      FilterFilter(s[1..], p, q);
      var rest := Filter(s[1..], p);
      if p(s[0]) {
        FilterConcat([s[0]], rest, q);
        assert Filter([s[0]], q) == (if q(s[0]) then [s[0]] else []) by {
          assert [s[0]][1..] == [];
        }
        assert Filter(s, p) == [s[0]] + rest;
      } else {
        assert Filter(s, p) == rest;
      }
    }
  }

  /** Removing a character that is absent changes nothing. */
  lemma WithoutAbsent(s: string, c: char)
    requires c !in s
    ensures Without(s, c) == s
  {
    FilterKeepsAll(s, x => x != c);
  }

  lemma WithoutConcat(a: string, b: string, c: char)
    ensures Without(a + b, c) == Without(a, c) + Without(b, c)
  {
    FilterConcat(a, b, x => x != c);
  }

  /** Removing c keeps every character q selects, when q never selects c. */
  lemma WithoutKeepsOthers(s: string, c: char, q: char -> bool)
    requires !q(c)
    ensures Filter(Without(s, c), q) == Filter(s, q)
  {
    FilterFilter(s, x => x != c, q);
  }

  /** Filters that agree on every character of s select the same characters. */
  lemma {:induction false} FilterAgree(s: string, p: char -> bool, q: char -> bool)
    requires forall k :: 0 <= k < |s| ==> p(s[k]) == q(s[k])
    ensures Filter(s, p) == Filter(s, q)
  {
    if s != [] {
      FilterAgree(s[1..], p, q);
    }
  }

  // ---------------------------------------------------------------------------
  // Trimming: Python's str.strip() and JavaScript's String.prototype.trim()
  // ---------------------------------------------------------------------------

  /** s without its leading characters that satisfy sp. */
  function TrimStart(s: string, sp: char -> bool): (r: string)
    ensures |r| <= |s| && r == s[|s| - |r|..]
    ensures forall k :: 0 <= k < |s| - |r| ==> sp(s[k])
    ensures r != [] ==> !sp(r[0])
    decreases |s|
  {
    if s != [] && sp(s[0]) then TrimStart(s[1..], sp) else s
  }

  /** s without its trailing characters that satisfy sp. */
  function TrimEnd(s: string, sp: char -> bool): (r: string)
    ensures |r| <= |s| && r == s[..|r|]
    ensures forall k :: |r| <= k < |s| ==> sp(s[k])
    ensures r != [] ==> !sp(r[|r| - 1])
    decreases |s|
  {
    if s != [] && sp(s[|s| - 1]) then TrimEnd(s[..|s| - 1], sp) else s
  }

  /** s without the characters satisfying sp at either end. */
  function Strip(s: string, sp: char -> bool): (r: string)
    ensures |r| <= |s|
    ensures r != [] ==> !sp(r[0]) && !sp(r[|r| - 1])
  {
    TrimEnd(TrimStart(s, sp), sp)
  }

  /** TrimStart drops a prefix of sp characters. */
  lemma TrimStartSpan(s: string, sp: char -> bool)
    ensures var t := TrimStart(s, sp);
      s[|s| - |t|..] == t && AllSatisfy(s[..|s| - |t|], sp)
  {
    var t := TrimStart(s, sp);
    var i := |s| - |t|;
    forall k | 0 <= k < i ensures sp(s[..i][k]) {
      assert s[..i][k] == s[k];
    }
  }

  /** TrimEnd drops a suffix of sp characters. */
  lemma TrimEndSpan(t: string, sp: char -> bool)
    ensures var r := TrimEnd(t, sp);
      t[..|r|] == r && AllSatisfy(t[|r|..], sp)
  {
    var r := TrimEnd(t, sp);
    forall k | 0 <= k < |t| - |r| ensures sp(t[|r|..][k]) {
      assert t[|r|..][k] == t[|r| + k];
    }
  }

  /** Dropping a padding prefix and then a padding suffix leaves a slice of s with padding on both sides. */
  lemma SpanParts(s: string, t: string, r: string, i: nat, sp: char -> bool)
    requires i <= |s| && t == s[i..] && AllSatisfy(s[..i], sp)
    requires |r| <= |t| && r == t[..|r|] && AllSatisfy(t[|r|..], sp)
    ensures i + |r| <= |s| && s[i..i + |r|] == r && AllSatisfy(s[i + |r|..], sp)
  {
    assert s[i + |r|..] == t[|r|..];
  }

  /** Strip cuts s into a prefix and a suffix of sp characters around its result r, which it returns whole. */
  lemma StripSpan(s: string, sp: char -> bool) returns (i: nat, r: string)
    ensures r == Strip(s, sp)
    ensures i + |r| <= |s| && s[i..i + |r|] == r && AllSatisfy(s[..i], sp) && AllSatisfy(s[i + |r|..], sp)
  {
    var t := TrimStart(s, sp);
    TrimStartSpan(s, sp);
    r := TrimEnd(t, sp);
    TrimEndSpan(t, sp);
    i := |s| - |t|;
    SpanParts(s, t, r, i, sp);
  }

  /** Python's s.strip() with no argument. */
  function PyStrip(s: string): string {
    Strip(s, IsPySpace)
  }

  /** JavaScript's s.trim(). */
  function JsTrim(s: string): string {
    Strip(s, IsJsSpace)
  }

  lemma {:induction false} TrimStartAfter(pre: string, t: string, sp: char -> bool)
    requires AllSatisfy(pre, sp)
    requires t == [] || !sp(t[0])
    ensures TrimStart(pre + t, sp) == t
  {
    if pre != [] {
      assert (pre + t)[1..] == pre[1..] + t;
      TrimStartAfter(pre[1..], t, sp);
    }
  }

  lemma {:induction false} TrimEndBefore(t: string, post: string, sp: char -> bool)
    requires AllSatisfy(post, sp)
    requires t == [] || !sp(t[|t| - 1])
    ensures TrimEnd(t + post, sp) == t
  {
    if post != [] {
      var n := |post| - 1;
      assert (t + post)[..|t + post| - 1] == t + post[..n];
      TrimEndBefore(t, post[..n], sp);
    }
  }

  /** Stripping only removes characters: what is left was in the text. */
  lemma StripWithin(s: string, sp: char -> bool)
    ensures forall k :: 0 <= k < |Strip(s, sp)| ==> Strip(s, sp)[k] in s
  {
    var t := TrimStart(s, sp);
    var r := TrimEnd(t, sp);
    forall k | 0 <= k < |r| ensures r[k] in s {
      assert r[k] == t[k] == s[|s| - |t| + k];
    }
  }

  /** Stripping removes exactly the padding around a core that does not itself start or end with it. */
  lemma StripAround(pre: string, core: string, post: string, sp: char -> bool)
    requires AllSatisfy(pre, sp) && AllSatisfy(post, sp)
    requires core == [] || (!sp(core[0]) && !sp(core[|core| - 1]))
    ensures Strip(pre + core + post, sp) == core
  {
    assert pre + core + post == pre + (core + post);
    if core == [] {
      assert core + post == post;
      TrimStartAfter(pre + post, [], sp);
      assert pre + post + [] == pre + post;
    } else {
      TrimStartAfter(pre, core + post, sp);
      TrimEndBefore(core, post, sp);
    }
  }

  lemma FilterTrimStart(s: string, sp: char -> bool, p: char -> bool)
    requires forall x :: sp(x) ==> !p(x)
    ensures Filter(TrimStart(s, sp), p) == Filter(s, p)
  {
    var t := TrimStart(s, sp);
    var a := s[..|s| - |t|];
    assert s == a + t;
    FilterConcat(a, t, p);
    FilterDropsAll(a, p);
  }

  lemma FilterTrimEnd(s: string, sp: char -> bool, p: char -> bool)
    requires forall x :: sp(x) ==> !p(x)
    ensures Filter(TrimEnd(s, sp), p) == Filter(s, p)
  {
    var t := TrimEnd(s, sp);
    var b := s[|t|..];
    assert s == t + b;
    FilterConcat(t, b, p);
    FilterDropsAll(b, p);
  }

  /** Stripping only drops padding characters, so it keeps every character the padding never is. */
  lemma FilterStrip(s: string, sp: char -> bool, p: char -> bool)
    requires forall x :: sp(x) ==> !p(x)
    ensures Filter(Strip(s, sp), p) == Filter(s, p)
  {
    FilterTrimStart(s, sp, p);
    FilterTrimEnd(TrimStart(s, sp), sp, p);
  }

  // ---------------------------------------------------------------------------
  // Replacing: Python's s.replace(a, b) (every occurrence), JavaScript's
  // s.replace(a, b) with a string pattern (the first occurrence only)
  // ---------------------------------------------------------------------------

  /** s with every occurrence of a replaced by b. */
  function ReplaceChar(s: string, a: char, b: char): (r: string)
    ensures |r| == |s|
    ensures forall k :: 0 <= k < |s| ==> r[k] == (if s[k] == a then b else s[k])
  {
    if s == [] then [] else [if s[0] == a then b else s[0]] + ReplaceChar(s[1..], a, b)
  }

  /** Replacing a by a character b that s does not contain can be undone. */
  lemma ReplaceCharRoundTrip(s: string, a: char, b: char)
    requires b !in s
    ensures ReplaceChar(ReplaceChar(s, a, b), b, a) == s
  {
  }

  lemma ReplaceKeepsAbsent(s: string, a: char, b: char, c: char)
    requires c !in s && c != b
    ensures c !in ReplaceChar(s, a, b)
  {
    var r := ReplaceChar(s, a, b);
    forall k | 0 <= k < |r|
      ensures r[k] != c
    {
      assert s[k] in s;
    }
  }

  /** The position of the first c in s, or |s| when there is none. */
  function IndexOf(s: string, c: char): (i: nat)
    ensures i <= |s|
    ensures i < |s| ==> s[i] == c
    ensures forall k :: 0 <= k < i ==> s[k] != c
    ensures i == |s| <==> c !in s
  {
    if s == [] then 0 else if s[0] == c then 0 else 1 + IndexOf(s[1..], c)
  }

  /** s with only its first a replaced by b. */
  function ReplaceFirst(s: string, a: char, b: char): (r: string)
    ensures |r| == |s|
    ensures a !in s ==> r == s
    ensures a in s ==> r[IndexOf(s, a)] == b
    ensures forall k :: 0 <= k < |s| && k != IndexOf(s, a) ==> r[k] == s[k]
  {
    var i := IndexOf(s, a);
    if i < |s| then s[..i] + [b] + s[i + 1..] else s
  }

  // ---------------------------------------------------------------------------
  // Case, prefixes, joining and splitting
  // ---------------------------------------------------------------------------

  function LowerChar(c: char): char {
    if 'A' <= c <= 'Z' then (c as int + 32) as char else c
  }

  /** s.lower(), on the ASCII letters. */
  function Lower(s: string): (r: string)
    ensures |r| == |s|
    ensures forall k :: 0 <= k < |s| ==> r[k] == LowerChar(s[k])
    ensures forall k :: 0 <= k < |r| ==> !('A' <= r[k] <= 'Z')
  {
    if s == [] then [] else [LowerChar(s[0])] + Lower(s[1..])
  }

  lemma LowerKeepsAbsent(s: string, c: char)
    requires c !in s && !('a' <= c <= 'z')
    ensures c !in Lower(s)
  {
    var r := Lower(s);
    forall k | 0 <= k < |r|
      ensures r[k] != c
    {
      assert s[k] in s;
    }
  }

  /** sep.join(xs). */
  function Join(xs: seq<string>, sep: char): string {
    if |xs| == 0 then ""
    else if |xs| == 1 then xs[0]
    else xs[0] + [sep] + Join(xs[1..], sep)
  }

  /** s.split(sep): the pieces between the separators, never an empty list. */
  function Split(s: string, sep: char): (r: seq<string>)
    ensures |r| >= 1
    ensures forall k :: 0 <= k < |r| ==> sep !in r[k]
  {
    if s == [] then [""]
    else
      var rest := Split(s[1..], sep);
      if s[0] == sep then [""] + rest else [[s[0]] + rest[0]] + rest[1..]
  }

  lemma {:induction false} SplitNoSep(x: string, sep: char)
    requires sep !in x
    ensures Split(x, sep) == [x]
  {
    if x != [] {
      SplitNoSep(x[1..], sep);
      var rest := Split(x[1..], sep);
      assert x[0] != sep && rest[0] == x[1..] && rest[1..] == [];
      assert [x[0]] + x[1..] == x;
    }
  }

  lemma {:induction false} SplitAfterPiece(x: string, t: string, sep: char)
    requires sep !in x
    ensures Split(x + [sep] + t, sep) == [x] + Split(t, sep)
  {
    var s := x + [sep] + t;
    if x == [] {
      assert s[0] == sep && s[1..] == t;
    } else {
      assert s[0] == x[0] && s[1..] == x[1..] + [sep] + t;
      SplitAfterPiece(x[1..], t, sep);
      var rest := Split(s[1..], sep);
      assert rest == [x[1..]] + Split(t, sep);
      assert rest[0] == x[1..] && rest[1..] == Split(t, sep);
      assert [x[0]] + x[1..] == x;
    }
  }

  /** Joining pieces that do not contain the separator, then splitting, gives the pieces back. */
  lemma {:induction false} SplitJoin(xs: seq<string>, sep: char)
    requires |xs| >= 1
    requires forall k :: 0 <= k < |xs| ==> sep !in xs[k]
    ensures Split(Join(xs, sep), sep) == xs
  {
    if |xs| == 1 {
      SplitNoSep(xs[0], sep);
    } else {
      SplitJoin(xs[1..], sep);
      SplitAfterPiece(xs[0], Join(xs[1..], sep), sep);
      assert [xs[0]] + xs[1..] == xs;
    }
  }

  /** Splitting, then joining with the same separator, gives the string back. */
  lemma {:induction false} JoinSplit(s: string, sep: char)
    ensures Join(Split(s, sep), sep) == s
  {
    if s != [] {
      var rest := Split(s[1..], sep);
      JoinSplit(s[1..], sep);
      if s[0] == sep {
        assert ([""] + rest)[1..] == rest;
      } else if |rest| > 1 {
        var r := [[s[0]] + rest[0]] + rest[1..];
        assert r[1..] == rest[1..];
        assert Join(rest, sep) == rest[0] + [sep] + Join(rest[1..], sep);
        assert Join(r, sep) == [s[0]] + rest[0] + [sep] + Join(rest[1..], sep);
      }
    }
  }

  // ---------------------------------------------------------------------------
  // Mapping over a sequence
  // ---------------------------------------------------------------------------

  /** f applied to each element of xs, in order. */
  function MapSeq<A, B>(f: A -> B, xs: seq<A>): (r: seq<B>)
    ensures |r| == |xs|
  {
    seq(|xs|, k requires 0 <= k < |xs| => f(xs[k]))
  }

  lemma MapSnoc<A, B>(f: A -> B, xs: seq<A>, j: nat)
    requires j < |xs|
    ensures MapSeq(f, xs[..j + 1]) == MapSeq(f, xs[..j]) + [f(xs[j])]
  {
    var a := MapSeq(f, xs[..j + 1]);
    var b := MapSeq(f, xs[..j]) + [f(xs[j])];
    forall k | 0 <= k < |a| ensures a[k] == b[k] {
      assert xs[..j + 1][k] == xs[k];
    }
  }

  // ---------------------------------------------------------------------------
  // Decimal digits
  // ---------------------------------------------------------------------------

  /** The number written by the decimal digits s (0 for the empty string). */
  function DigitsValue(s: string): nat
    requires AllDigits(s)
  {
    if s == [] then 0 else 10 * DigitsValue(s[..|s| - 1]) + (s[|s| - 1] as int - '0' as int)
  }

  function DigitChar(d: nat): (c: char)
    requires d < 10
    ensures IsDigit(c) && c as int - '0' as int == d
  {
    ('0' as int + d) as char
  }

  /** str(n): the shortest decimal numeral for n. */
  function ShowNat(n: nat): (r: string)
    ensures r != [] && AllDigits(r)
    ensures DigitsValue(r) == n
    ensures r[0] == '0' ==> n == 0
  {
    if n < 10 then [DigitChar(n)]
    else
      var r := ShowNat(n / 10) + [DigitChar(n % 10)];
      assert r[..|r| - 1] == ShowNat(n / 10);
      r
  }
}
