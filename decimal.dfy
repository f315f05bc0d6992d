/** Decimal rendering of numbers as the parser's template literals and
    Number.prototype.toFixed produce it, with the parsers that invert it. */
module Decimal {
  import opened Strings

  function DigitChar(d: nat): (c: char)
    requires d < 10
    ensures IsDigit(c)
  {
    ('0' as int + d) as char
  }

  function DigitValue(c: char): (d: nat)
    requires IsDigit(c)
    ensures d < 10
  {
    c as int - '0' as int
  }

  predicate AllDigits(s: string) {
    forall k :: 0 <= k < |s| ==> IsDigit(s[k])
  }

  /** `${n}` for a non-negative integer: shortest decimal numeral. */
  function NatToString(n: nat): (r: string)
    ensures |r| >= 1 && AllDigits(r)
    ensures |r| > 1 ==> r[0] != '0'
    decreases n
  {
    if n < 10 then [DigitChar(n)] else NatToString(n / 10) + [DigitChar(n % 10)]
  }

  /** The value of a numeral, most significant digit first. */
  function DigitsValue(s: string): nat
    requires AllDigits(s)
    decreases |s|
  {
    if s == [] then 0 else DigitsValue(s[..|s| - 1]) * 10 + DigitValue(s[|s| - 1])
  }

  lemma {:induction false} NatToStringValue(n: nat)
    ensures DigitsValue(NatToString(n)) == n
    decreases n
  {
    if n >= 10 {
      NatToStringValue(n / 10);
      var s := NatToString(n);
      assert s[..|s| - 1] == NatToString(n / 10);
    }
  }

  /** Distinct numbers print differently, so "Possibility 3" names one record. */
  lemma NatToStringInjective(m: nat, n: nat)
    requires NatToString(m) == NatToString(n)
    ensures m == n
  {
    NatToStringValue(m);
    NatToStringValue(n);
  }

  function Pow10(n: nat): (p: nat)
    ensures p >= 1
  {
    if n == 0 then 1 else 10 * Pow10(n - 1)
  }

  /** The last `w` digits of `n`, padded with leading zeros. */
  function PadDigits(n: nat, w: nat): (r: string)
    ensures |r| == w && AllDigits(r)
    decreases w
  {
    if w == 0 then "" else PadDigits(n / 10, w - 1) + [DigitChar(n % 10)]
  }

  lemma {:induction false} PadDigitsValue(n: nat, w: nat)
    requires n < Pow10(w)
    ensures DigitsValue(PadDigits(n, w)) == n
    decreases w
  {
    if w > 0 {
      assert n / 10 < Pow10(w - 1);
      PadDigitsValue(n / 10, w - 1);
      var s := PadDigits(n, w);
      assert s[..|s| - 1] == PadDigits(n / 10, w - 1);
    }
  }

  /** Quotient and remainder by a positive divisor. */
  function DivMod(a: nat, d: nat): (r: (nat, nat))
    requires d >= 1
    ensures r.1 < d && a == r.0 * d + r.1
  {
    (a / d, a % d)
  }

  /** Number.prototype.toFixed(places) of the exact decimal v * 10^-places:
      a minus sign for a negative value, the integer part, a point and
      exactly `places` fraction digits. */
  function FormatFixed(v: int, places: nat): (r: string)
    requires places >= 1
  {
    var a: nat := if v < 0 then -v else v;
    var (whole, frac) := DivMod(a, Pow10(places));
    (if v < 0 then "-" else "") + NatToString(whole) + "." + PadDigits(frac, places)
  }

  /** toFixed's output has the shape FixedForm describes. */
  lemma FixedShape(v: int, places: nat)
    requires places >= 1
    ensures FixedForm(FormatFixed(v, places), v < 0, places)
  {
    var a: nat := if v < 0 then -v else v;
    var (whole, frac) := DivMod(a, Pow10(places));
    LocateFixedParts(v < 0, NatToString(whole), PadDigits(frac, places));
  }

  /** The shape toFixed(places) produces: a leading '-' exactly when `neg`,
      a shortest whole numeral, a point and exactly `places` digits. */
  predicate FixedForm(s: string, neg: bool, places: nat) {
    var b := if neg then 1 else 0;
    && |s| >= b + places + 2
    && var p := |s| - places - 1;
       && (s[0] == '-') == neg
       && AllDigits(s[b..p]) && (p - b > 1 ==> s[b] != '0')
       && s[p] == '.'
       && AllDigits(s[p + 1..])
  }

  /** The value of `whole.frac` in units of the last fraction digit. */
  function FixedValue(whole: string, frac: string): nat
    requires AllDigits(whole) && AllDigits(frac)
  {
    DigitsValue(whole) * Pow10(|frac|) + DigitsValue(frac)
  }

  /** Reads back an optionally signed decimal `d+.d+` as its value in units of
      10^-places together with the number of fraction digits. */
  function ParseFixed(s: string): Option<(int, nat)> {
    var neg := |s| > 0 && s[0] == '-';
    var b := if neg then 1 else 0;
    var i := Span(s, b, IsDigit);
    if i == b || i == |s| || s[i] != '.' then None
    else
      var j := Span(s, i + 1, IsDigit);
      DigitRun(s, b);
      DigitRun(s, i + 1);
      if j != |s| || j == i + 1 then None
      else
        var places := j - i - 1;
        var mag: int := FixedValue(s[b..i], s[i + 1..j]);
        Some((if neg then -mag else mag, places))
  }

  lemma DigitRun(s: string, i: nat)
    requires i <= |s|
    ensures AllDigits(s[i..Span(s, i, IsDigit)])
  {
    SpanRun(s, i, IsDigit);
    var j := Span(s, i, IsDigit);
    forall k | 0 <= k < j - i ensures IsDigit(s[i..j][k]) {
      assert s[i..j][k] == s[i + k];
    }
  }

  /** Where the pieces of `sign whole . frac` sit, as ParseFixed scans them. */
  lemma LocateFixedParts(neg: bool, whole: string, frac: string)
    requires |whole| >= 1 && AllDigits(whole) && |frac| >= 1 && AllDigits(frac)
    ensures var s := (if neg then "-" else "") + whole + "." + frac;
            var b := if neg then 1 else 0;
            && (|s| > 0 && s[0] == '-') == neg
            && Span(s, b, IsDigit) == b + |whole| && s[b + |whole|] == '.'
            && s[b..b + |whole|] == whole
            && Span(s, b + |whole| + 1, IsDigit) == |s| && s[b + |whole| + 1..] == frac
  {
    var sign := if neg then "-" else "";
    var s := sign + whole + "." + frac;
    var b := |sign|;
    assert !neg ==> s[0] == whole[0];
    assert forall k :: b <= k < b + |whole| ==> s[k] == whole[k - b];
    SpanStopsAt(s, b, b + |whole|, IsDigit);
    assert s[b + |whole| + 1..] == frac;
    SpanToEnd(s, b + |whole| + 1, IsDigit);
  }

  /** ParseFixed reads a sign, a numeral, a point and a fraction numeral. */
  lemma ParseFixedParts(neg: bool, whole: string, frac: string)
    requires |whole| >= 1 && AllDigits(whole) && |frac| >= 1 && AllDigits(frac)
    ensures var mag: int := FixedValue(whole, frac);
            ParseFixed((if neg then "-" else "") + whole + "." + frac) == Some((if neg then -mag else mag, |frac|))
  {
    LocateFixedParts(neg, whole, frac);
    var s := (if neg then "-" else "") + whole + "." + frac;
    assert s[(if neg then 1 else 0) + |whole| + 1..|s|] == frac;
  }

  /** ParseFixed inverts FormatFixed. */
  lemma FixedRoundTrip(v: int, places: nat)
    requires places >= 1
    ensures ParseFixed(FormatFixed(v, places)) == Some((v, places))
  {
    var a: nat := if v < 0 then -v else v;
    var (q, m) := DivMod(a, Pow10(places));
    NatToStringValue(q);
    PadDigitsValue(m, places);
    ParseFixedParts(v < 0, NatToString(q), PadDigits(m, places));
    assert FixedValue(NatToString(q), PadDigits(m, places)) == a;
  }
}
