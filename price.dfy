/** Price extraction from the package-info field (process_medicines.js,
    lines 46-51 and 62): the regular expression `à§³\s*([0-9,.]+)`, the
    first-comma `replace`, `parseFloat`, and the fallback `price || 100`. */
module Price {
  import opened Wrappers
  import opened Text

  /** The literal that opens the pattern: the three characters U+00E0,
      U+00A7 and U+00B3, i.e. the UTF-8 bytes of the taka sign U+09F3 read
      back as Latin-1. */
  const Marker: string := "\U{E0}\U{A7}\U{B3}"

  const DefaultBoxPrice: real := 100.0

  /** The character class `[0-9,.]`. */
  predicate IsPriceChar(c: char) {
    '0' <= c <= '9' || c == ',' || c == '.'
  }

  predicate IsDigit(c: char) {
    '0' <= c <= '9'
  }

  /** Where the greedy `\s*` that starts at `k` stops. */
  function SkipSpace(s: string, k: nat): (e: nat)
    requires k <= |s|
    ensures k <= e <= |s|
    ensures forall j :: k <= j < e ==> IsSpace(s[j])
    ensures e == |s| || !IsSpace(s[e])
    decreases |s| - k
  {
    if k < |s| && IsSpace(s[k]) then SkipSpace(s, k + 1) else k
  }

  /** Where the greedy `[0-9,.]+` that starts at `k` stops. */
  function PriceRun(s: string, k: nat): (e: nat)
    requires k <= |s|
    ensures k <= e <= |s|
    ensures forall j :: k <= j < e ==> IsPriceChar(s[j])
    ensures e == |s| || !IsPriceChar(s[e])
    decreases |s| - k
  {
    if k < |s| && IsPriceChar(s[k]) then PriceRun(s, k + 1) else k
  }

  /** The capture group of a match that starts at position `p`, if the
      pattern matches there. No white-space character is in `[0-9,.]`, so
      giving back white space from `\s*` never rescues a failed match: the
      pattern matches at `p` exactly when the marker is there and a price
      character follows the white space after it. */
  function MatchAt(s: string, p: nat): (g: Option<string>)
    requires p <= |s|
    ensures g.Some? ==> |g.value| >= 1 && forall j :: 0 <= j < |g.value| ==> IsPriceChar(g.value[j])
    ensures g.Some? ==> MarkerAt(s, p)
  {
    if MarkerAt(s, p) then
      var q := SkipSpace(s, p + |Marker|);
      var e := PriceRun(s, q);
      if q < e then Some(s[q..e]) else None
    else None
  }

  /** The marker occurs in `s` at position `p`, compared character by
      character. */
  predicate MarkerAt(s: string, p: nat) {
    p + 3 <= |s| && s[p] == '\U{E0}' && s[p + 1] == '\U{A7}' && s[p + 2] == '\U{B3}'
  }

  lemma MarkerAtIff(s: string, p: nat)
    ensures MarkerAt(s, p) <==> p + |Marker| <= |s| && s[p..p + |Marker|] == Marker
  {
    if p + |Marker| <= |s| && s[p..p + |Marker|] == Marker {
      assert s[p..p + 3][0] == s[p] && s[p..p + 3][1] == s[p + 1] && s[p..p + 3][2] == s[p + 2];
    }
  }

  /** The leftmost match at or after position `p`. */
  function FindFrom(s: string, p: nat): (g: Option<string>)
    requires p <= |s|
    ensures g.Some? ==> |g.value| >= 1 && forall j :: 0 <= j < |g.value| ==> IsPriceChar(g.value[j])
    decreases |s| - p
  {
    match MatchAt(s, p)
    case Some(c) => Some(c)
    case None => if p < |s| then FindFrom(s, p + 1) else None
  }

  /** `FindFrom` is the leftmost match: there is none exactly when the
      pattern matches at no position from `p` on, and otherwise it is the
      match at a position before which the pattern matches nowhere. */
  lemma FindFromLeftmost(s: string, p: nat)
    requires p <= |s|
    ensures FindFrom(s, p).None? <==> forall q :: p <= q <= |s| ==> MatchAt(s, q).None?
    ensures FindFrom(s, p).Some? ==>
              exists q :: p <= q <= |s| && MatchAt(s, q) == FindFrom(s, p)
                          && forall q' :: p <= q' < q ==> MatchAt(s, q').None?
  {
    FindFromNone(s, p);
    if FindFrom(s, p).Some? {
      var q := FindFromFirst(s, p);
    }
  }

  lemma {:induction false} FindFromNone(s: string, p: nat)
    requires p <= |s|
    ensures FindFrom(s, p).None? <==> forall q :: p <= q <= |s| ==> MatchAt(s, q).None?
    decreases |s| - p
  {
    if MatchAt(s, p).None? {
      if p < |s| {
        FindFromNone(s, p + 1);
        assert FindFrom(s, p) == FindFrom(s, p + 1);
        if FindFrom(s, p).None? {
          forall q | p <= q <= |s|
            ensures MatchAt(s, q).None?
          {
            if q > p {
              assert p + 1 <= q;
            }
          }
        }
      } else {
        forall q | p <= q <= |s|
          ensures MatchAt(s, q).None?
        {
          assert q == p;
        }
      }
    }
  }

  /** The position of the leftmost match. */
  lemma {:induction false} FindFromFirst(s: string, p: nat) returns (q: nat)
    requires p <= |s| && FindFrom(s, p).Some?
    ensures p <= q <= |s| && MatchAt(s, q) == FindFrom(s, p)
    ensures forall q' :: p <= q' < q ==> MatchAt(s, q').None?
    decreases |s| - p
  {
    if MatchAt(s, p).Some? {
      q := p;
    } else {
      q := FindFromFirst(s, p + 1);
      forall q' | p <= q' < q
        ensures MatchAt(s, q').None?
      {
        if q' > p {
          assert p + 1 <= q';
        }
      }
    }
  }

  /** `packageInfo.match(...)`, reduced to its capture group: the group of
      the leftmost position where the pattern matches. */
  function PriceMatch(info: string): (g: Option<string>)
    ensures g.Some? ==> |g.value| >= 1 && forall j :: 0 <= j < |g.value| ==> IsPriceChar(g.value[j])
  {
    FindFrom(info, 0)
  }

  /** Without the character U+00E0 there is no marker, hence no match. */
  lemma NoMarkerNoMatch(info: string)
    requires '\U{E0}' !in info
    ensures PriceMatch(info).None?
  {
    forall q | 0 <= q <= |info|
      ensures MatchAt(info, q).None?
    {
      if q + |Marker| <= |info| {
        assert info[q] in info;
      }
    }
    FindFromNone(info, 0);
  }

  /** `s.replace(',', '')`: a string pattern replaces its first occurrence
      only. */
  function RemoveFirstComma(s: string): (r: string)
    ensures ',' !in s ==> r == s
    ensures ',' in s ==> |r| == |s| - 1
  {
    if s == [] then []
    else if s[0] == ',' then s[1..]
    else [s[0]] + RemoveFirstComma(s[1..])
  }

  /** The character removed is the first comma, and only that one. */
  lemma {:induction false} RemoveFirstCommaSplits(s: string, i: nat)
    requires i < |s| && s[i] == ',' && ',' !in s[..i]
    ensures RemoveFirstComma(s) == s[..i] + s[i + 1..]
  {
    if i > 0 {
      assert s[0] in s[..i];
      assert s[1..][..i - 1] == s[1..i];
      RemoveFirstCommaSplits(s[1..], i - 1);
      assert s[..i] == [s[0]] + s[1..][..i - 1];
      assert s[i + 1..] == s[1..][i..];
    }
  }

  /** Where the run of decimal digits that starts at `k` stops. */
  function DigitRun(s: string, k: nat): (e: nat)
    requires k <= |s|
    ensures k <= e <= |s|
    ensures forall j :: k <= j < e ==> IsDigit(s[j])
    ensures e == |s| || !IsDigit(s[e])
    decreases |s| - k
  {
    if k < |s| && IsDigit(s[k]) then DigitRun(s, k + 1) else k
  }

  function DigitValue(c: char): (n: nat)
    requires IsDigit(c)
    ensures n <= 9
  {
    c as int - '0' as int
  }

  /** The number a string of decimal digits denotes. */
  function DigitsValue(d: string): nat
    requires forall j :: 0 <= j < |d| ==> IsDigit(d[j])
    decreases |d|
  {
    if d == [] then 0 else DigitsValue(d[..|d| - 1]) * 10 + DigitValue(d[|d| - 1])
  }

  function Pow10(n: nat): (p: nat)
    ensures p >= 1
  {
    if n == 0 then 1 else 10 * Pow10(n - 1)
  }

  /** The number with whole part `w` and `k` fraction digits spelling `f`. */
  function Decimal(w: nat, f: nat, k: nat): (r: real)
    ensures r >= 0.0
  {
    w as real + f as real / Pow10(k) as real
  }

  /** `parseFloat` on a string over `[0-9,.]`: the longest prefix of the form
      digits, optionally followed by `.` and digits, read as an exact decimal;
      `None` stands for NaN, the outcome when that prefix has no digit. */
  function ParseFloat(s: string): (v: Option<real>)
    ensures v.None? <==> s == [] || (!IsDigit(s[0]) && !(s[0] == '.' && |s| > 1 && IsDigit(s[1])))
    ensures v.Some? ==> v.value >= 0.0
  {
    var i := DigitRun(s, 0);
    if i < |s| && s[i] == '.' then
      var j := DigitRun(s, i + 1);
      if i == 0 && j == i + 1 then None
      else Some(Decimal(DigitsValue(s[..i]), DigitsValue(s[i + 1..j]), j - i - 1))
    else if i == 0 then None
    else Some(DigitsValue(s[..i]) as real)
  }

  /** `boxPrice`: the extracted price, or 100 when nothing matched or the
      capture reads as 0 or NaN (both falsy in `price || 100`). */
  function BoxPrice(info: string): (p: real)
    ensures p > 0.0
    ensures PriceMatch(info).None? ==> p == DefaultBoxPrice
    ensures PriceMatch(info).Some? && ParseFloat(RemoveFirstComma(PriceMatch(info).value)).None?
            ==> p == DefaultBoxPrice
    ensures PriceMatch(info).Some? && ParseFloat(RemoveFirstComma(PriceMatch(info).value)) == Some(0.0)
            ==> p == DefaultBoxPrice
  {
    var price := match PriceMatch(info)
      case None => Some(0.0)
      case Some(g) => ParseFloat(RemoveFirstComma(g));
    if price.None? || price.value == 0.0 then DefaultBoxPrice else price.value
  }

  // ---------------------------------------------------------------------
  // The pattern and the number reader on text of a known shape.

  lemma {:induction false} SkipSpaceTo(s: string, k: nat, e: nat)
    requires k <= e <= |s|
    requires forall j :: k <= j < e ==> IsSpace(s[j])
    requires e == |s| || !IsSpace(s[e])
    ensures SkipSpace(s, k) == e
    decreases e - k
  {
    if k < e {
      SkipSpaceTo(s, k + 1, e);
    }
  }

  lemma {:induction false} PriceRunTo(s: string, k: nat, e: nat)
    requires k <= e <= |s|
    requires forall j :: k <= j < e ==> IsPriceChar(s[j])
    requires e == |s| || !IsPriceChar(s[e])
    ensures PriceRun(s, k) == e
    decreases e - k
  {
    if k < e {
      PriceRunTo(s, k + 1, e);
    }
  }

  lemma {:induction false} DigitRunTo(s: string, k: nat, e: nat)
    requires k <= e <= |s|
    requires forall j :: k <= j < e ==> IsDigit(s[j])
    requires e == |s| || !IsDigit(s[e])
    ensures DigitRun(s, k) == e
    decreases e - k
  {
    if k < e {
      DigitRunTo(s, k + 1, e);
    }
  }

  /** The marker at `p`, white space up to `q`, price characters from `q`
      up to `e` and then none: the pattern matches at `p` and captures
      `s[q..e]`. */
  lemma MatchAtCaptures(s: string, p: nat, q: nat, e: nat)
    requires MarkerAt(s, p) && p + |Marker| <= q < e <= |s|
    requires forall j :: p + |Marker| <= j < q ==> IsSpace(s[j])
    requires forall j :: q <= j < e ==> IsPriceChar(s[j])
    requires e == |s| || !IsPriceChar(s[e])
    ensures MatchAt(s, p) == Some(s[q..e])
  {
    SkipSpaceTo(s, p + |Marker|, q);
    PriceRunTo(s, q, e);
  }

  /** Positions where the pattern does not match are passed over. */
  lemma {:induction false} FindFromSkip(s: string, p0: nat, p: nat)
    requires p0 <= p <= |s|
    requires forall q :: p0 <= q < p ==> MatchAt(s, q).None?
    ensures FindFrom(s, p0) == FindFrom(s, p)
    decreases p - p0
  {
    if p0 < p {
      FindFromSkip(s, p0 + 1, p);
    }
  }

  /** Text with no U+00E0 before the first marker, white space after it and
      then a run of price characters: that run is the capture. */
  lemma FirstMarkerMatch(pre: string, ws: string, g: string, post: string)
    requires '\U{E0}' !in pre
    requires AllSpace(ws)
    requires |g| >= 1 && forall j :: 0 <= j < |g| ==> IsPriceChar(g[j])
    requires post == [] || !IsPriceChar(post[0])
    ensures PriceMatch(pre + Marker + ws + g + post) == Some(g)
  {
    var s1 := pre + Marker;
    var s2 := s1 + ws;
    var s3 := s2 + g;
    var s := s3 + post;
    var p, q := |pre|, |s2|;
    var e := q + |g|;
    assert MarkerAt(s, p) by {
      assert s[p] == s1[p] == Marker[0];
      assert s[p + 1] == s1[p + 1] == Marker[1];
      assert s[p + 2] == s1[p + 2] == Marker[2];
    }
    forall j | p + |Marker| <= j < q
      ensures IsSpace(s[j])
    {
      assert s[j] == s2[j] == ws[j - |s1|];
    }
    forall j | q <= j < e
      ensures IsPriceChar(s[j])
    {
      assert s[j] == s3[j] == g[j - q];
    }
    if e < |s| {
      assert s[e] == post[0];
    }
    MatchAtCaptures(s, p, q, e);
    assert s[q..e] == g;
    forall q' | 0 <= q' < p
      ensures MatchAt(s, q').None?
    {
      assert s[q'] == pre[q'];
      assert pre[q'] in pre;
    }
    FindFromSkip(s, 0, p);
  }

  /** Digits followed by neither a digit nor a point read as their value. */
  lemma ParseFloatWhole(w: string, rest: string)
    requires |w| >= 1 && forall j :: 0 <= j < |w| ==> IsDigit(w[j])
    requires rest == [] || (rest[0] != '.' && !IsDigit(rest[0]))
    ensures ParseFloat(w + rest) == Some(DigitsValue(w) as real)
  {
    var s := w + rest;
    if |w| < |s| {
      assert s[|w|] == rest[0];
    }
    DigitRunTo(s, 0, |w|);
    assert s[..|w|] == w;
  }

  /** Whole digits, a point and fraction digits (at least one digit in all)
      read as the decimal they spell; whatever follows a non-digit is
      ignored. */
  lemma ParseFloatDecimal(w: string, f: string, rest: string)
    requires forall j :: 0 <= j < |w| ==> IsDigit(w[j])
    requires forall j :: 0 <= j < |f| ==> IsDigit(f[j])
    requires |w| + |f| >= 1
    requires rest == [] || !IsDigit(rest[0])
    ensures ParseFloat(w + "." + f + rest) == Some(Decimal(DigitsValue(w), DigitsValue(f), |f|))
  {
    var s1 := w + ".";
    var s2 := s1 + f;
    var s := s2 + rest;
    var i := |w|;
    var j := |s2|;
    assert s[i] == '.';
    forall k | i + 1 <= k < j
      ensures IsDigit(s[k])
    {
      assert s[k] == s2[k] == f[k - i - 1];
    }
    if j < |s| {
      assert s[j] == rest[0];
    }
    DigitRunTo(s, 0, i);
    DigitRunTo(s, i + 1, j);
    assert s[..i] == w;
    assert s[i + 1..j] == f;
    assert j - i - 1 == |f|;
  }

  /** How `boxPrice` follows from a match and its reading. */
  lemma BoxPriceFrom(info: string, g: string, v: real)
    requires PriceMatch(info) == Some(g)
    requires ParseFloat(RemoveFirstComma(g)) == Some(v) && v != 0.0
    ensures BoxPrice(info) == v
  {
  }

  // ---------------------------------------------------------------------
  // Worked examples.

  lemma ExampleDigits()
    ensures DigitsValue("1234") == 1234 && DigitsValue("50") == 50
  {
    assert "1234"[..3] == "123";
    assert "123"[..2] == "12";
    assert "12"[..1] == "1";
    assert "1"[..0] == "";
    assert "50"[..1] == "5";
    assert "5"[..0] == "";
  }

  /** `1,234.50` loses its comma and reads as 1234.5. */
  lemma ExampleReading(g: string)
    requires g == "1,234.50"
    ensures ParseFloat(RemoveFirstComma(g)) == Some(1234.5)
  {
    var t := "1234" + "." + "50" + "";
    ExampleComma(g, t);
    ExampleParse(t);
  }

  lemma ExampleComma(g: string, t: string)
    requires g == "1,234.50" && t == "1234" + "." + "50" + ""
    ensures RemoveFirstComma(g) == t
  {
    assert g[0] != ',' && g[1..][0] == ',';
    assert RemoveFirstComma(g[1..]) == g[1..][1..];
    assert [g[0]] + g[1..][1..] == t;
  }

  lemma ExampleParse(t: string)
    requires t == "1234" + "." + "50" + ""
    ensures ParseFloat(t) == Some(1234.5)
  {
    assert forall j :: 0 <= j < |"1234"| ==> IsDigit("1234"[j]);
    assert forall j :: 0 <= j < |"50"| ==> IsDigit("50"[j]);
    ParseFloatDecimal("1234", "50", "");
    ExampleDigits();
    ExampleDecimal();
  }

  lemma ExampleDecimal()
    ensures Decimal(1234, 50, 2) == 1234.5
  {
    assert Pow10(2) == 100;
  }

  /** The marker, a space, then `1,234.50`, with any text around it that
      has no U+00E0 before and no price character right after: the price
      is 1234.5. */
  lemma PriceExample(pre: string, post: string)
    requires '\U{E0}' !in pre
    requires post == [] || !IsPriceChar(post[0])
    ensures BoxPrice(pre + Marker + " " + "1,234.50" + post) == 1234.5
  {
    assert IsSpace(" "[0]);
    forall j | 0 <= j < |"1,234.50"|
      ensures IsPriceChar("1,234.50"[j])
    {
    }
    FirstMarkerMatch(pre, " ", "1,234.50", post);
    ExampleReading("1,234.50");
    BoxPriceFrom(pre + Marker + " " + "1,234.50" + post, "1,234.50", 1234.5);
  }

  /** The same text written with the taka sign itself (U+09F3) does not
      match the pattern, so the price falls back to 100. */
  lemma TakaSignFallsBack()
    ensures BoxPrice("Price: \U{9F3} 1,234.50 (strip)") == DefaultBoxPrice
  {
    NoMarkerNoMatch("Price: \U{9F3} 1,234.50 (strip)");
  }

  /** A price written as `0` is falsy in `price || 100`, so the box price
      is 100. */
  lemma ZeroPriceFallsBack(pre: string, post: string)
    requires '\U{E0}' !in pre
    requires post == [] || (!IsPriceChar(post[0]))
    ensures BoxPrice(pre + Marker + "" + "0" + post) == DefaultBoxPrice
  {
    assert IsPriceChar("0"[0]);
    FirstMarkerMatch(pre, "", "0", post);
    assert RemoveFirstComma("0") == "0" + "";
    ParseFloatWhole("0", "");
    assert DigitsValue("0") == 0 by {
      assert "0"[..0] == "";
    }
  }

  /** Since only the first comma is dropped, `1,234,567` reads as 1234. */
  lemma SecondCommaStopsParse()
    ensures ParseFloat(RemoveFirstComma("1,234,567")) == Some(1234.0)
  {
    RemoveFirstCommaSplits("1,234,567", 1);
    assert RemoveFirstComma("1,234,567") == "1234" + ",567";
    ParseFloatWhole("1234", ",567");
    ExampleDigits();
  }
}
