/**
 * The plain decimal spellings that Python's `float()` accepts, written with
 * the ASCII digits: an optional sign, then digits with at most one decimal
 * point and at least one digit
 * ("2", "2.", "2.50", ".5", "-0.25", "+3"). A spelling is read as the exact
 * rational number it denotes.
 */
module Decimal {
  import opened Wrappers

  predicate IsDigit(c: char) {
    '0' <= c <= '9'
  }

  predicate AllDigits(s: string) {
    forall k :: 0 <= k < |s| ==> IsDigit(s[k])
  }

  /** The number a string of decimal digits denotes, most significant first. */
  function DigitsValue(s: string): nat
    requires AllDigits(s)
  {
    if s == [] then 0 else DigitsValue(s[..|s| - 1]) * 10 + (s[|s| - 1] as int - '0' as int)
  }

  function Pow10(n: nat): (p: nat)
    ensures p >= 1
  {
    if n == 0 then 1 else 10 * Pow10(n - 1)
  }

  /** The position of the first '.' in `s`, or |s| when there is none. */
  function PointIndex(s: string): (k: nat)
    ensures k <= |s|
    ensures forall j :: 0 <= j < k ==> s[j] != '.'
    ensures k < |s| ==> s[k] == '.'
  {
    if s == [] || s[0] == '.' then 0 else 1 + PointIndex(s[1..])
  }

  /** The number written `whole.fraction`. */
  function PointedValue(whole: string, fraction: string): (v: real)
    requires AllDigits(whole) && AllDigits(fraction)
    ensures v >= 0.0
  {
    DigitsValue(whole) as real + DigitsValue(fraction) as real / Pow10(|fraction|) as real
  }

  /** An unsigned decimal spelling: digits, or digits '.' digits with at least
      one digit in all. Anything else (an empty string, a lone '.', a second
      '.', a letter, a blank) is not a number. */
  function ParseUnsigned(s: string): (r: Option<real>)
    ensures r.Some? ==> r.value >= 0.0
    ensures r.Some? ==> exists k :: 0 <= k < |s| && IsDigit(s[k])
    ensures r.Some? ==> forall k :: 0 <= k < |s| ==> IsDigit(s[k]) || s[k] == '.'
    ensures r.Some? ==> forall j, k :: 0 <= j < k < |s| && s[j] == '.' ==> s[k] != '.'
  {
    var k := PointIndex(s);
    if k == |s| then
      if s != [] && AllDigits(s) then
        assert IsDigit(s[0]);
        Some(DigitsValue(s) as real)
      else
        None
    else
      ParsePointed(s, k)
  }

  /** The spelling `s` whose first point is at `k`. */
  function ParsePointed(s: string, k: nat): (r: Option<real>)
    requires k < |s| && s[k] == '.' && forall j :: 0 <= j < k ==> s[j] != '.'
    ensures r.Some? ==> r.value >= 0.0
    ensures r.Some? ==> exists k :: 0 <= k < |s| && IsDigit(s[k])
    ensures r.Some? ==> forall k :: 0 <= k < |s| ==> IsDigit(s[k]) || s[k] == '.'
    ensures r.Some? ==> forall j, k :: 0 <= j < k < |s| && s[j] == '.' ==> s[k] != '.'
  {
    var whole, fraction := s[..k], s[k + 1..];
    if AllDigits(whole) && AllDigits(fraction) && |whole| + |fraction| > 0 then
      assert forall j :: 0 <= j < k ==> s[j] == whole[j];
      assert forall j :: k < j < |s| ==> s[j] == fraction[j - k - 1];
      assert if |whole| > 0 then IsDigit(s[0]) else IsDigit(s[k + 1]);
      Some(PointedValue(whole, fraction))
    else
      None
  }

  /** `float(s)` on the decimal spellings: an optional '+' or '-' in front of
      an unsigned spelling. A sign can stand only in front, and a number holds
      at least one digit. */
  function Parse(s: string): (r: Option<real>)
    ensures r.Some? ==> exists k :: 0 <= k < |s| && IsDigit(s[k])
    ensures r.Some? ==> forall k :: 0 < k < |s| ==> IsDigit(s[k]) || s[k] == '.'
    ensures r.Some? && s[0] != '-' ==> r.value >= 0.0
    ensures r.Some? ==> IsDigit(s[0]) || s[0] == '.' || s[0] == '-' || s[0] == '+'
    ensures r.Some? ==> forall j, k :: 0 <= j < k < |s| && s[j] == '.' ==> s[k] != '.'
  {
    if s != [] && (s[0] == '-' || s[0] == '+') then
      match ParseUnsigned(s[1..])
      case None => None
      case Some(v) =>
        assert forall k :: 0 < k < |s| ==> s[k] == s[1..][k - 1];
        Some(if s[0] == '-' then -v else v)
    else
      ParseUnsigned(s)
  }

  /** A spelling that starts with digits finds its point right after them. */
  lemma {:induction false} PointIndexAfterDigits(whole: string, rest: string)
    requires AllDigits(whole)
    ensures PointIndex(whole + "." + rest) == |whole|
  {
    if whole != [] {
      assert (whole + "." + rest)[1..] == whole[1..] + "." + rest;
      PointIndexAfterDigits(whole[1..], rest);
    }
  }

  /** A spelling with a point denotes the whole part plus the fraction scaled
      down by one power of ten per fraction digit. */
  lemma ParsePointedSpelling(whole: string, fraction: string)
    requires AllDigits(whole) && AllDigits(fraction) && |whole| + |fraction| > 0
    ensures Parse(whole + "." + fraction) == Some(PointedValue(whole, fraction))
  {
    var s := whole + "." + fraction;
    var k := |whole|;
    PointIndexAfterDigits(whole, fraction);
    assert s[..k] == whole;
    assert s[k + 1..] == fraction;
    assert s[0] != '-' && s[0] != '+' by {
      if whole != [] { assert s[0] == whole[0]; } else { assert s[0] == '.'; }
    }
  }

  /** A spelling without a sign in front is read by the unsigned parser. */
  lemma UnsignedSpelling(s: string)
    requires s == [] || (s[0] != '-' && s[0] != '+')
    ensures Parse(s) == ParseUnsigned(s)
  {
  }

  /** A '-' in front of an unsigned spelling negates its value, and a spelling
      the unsigned parser refuses stays refused. */
  lemma NegatedSpelling(u: string)
    ensures Parse("-" + u) == if ParseUnsigned(u).Some? then Some(-ParseUnsigned(u).value) else None
  {
    var s := "-" + u;
    assert s[0] == '-';
    assert s[1..] == u;
  }

  /** A '+' in front of an unsigned spelling changes nothing. */
  lemma PlusSignedSpelling(u: string)
    ensures Parse("+" + u) == ParseUnsigned(u)
  {
    var s := "+" + u;
    assert s[0] == '+';
    assert s[1..] == u;
  }

  /** Scaling a fraction and its denominator by ten leaves its value alone. */
  lemma ScaledFraction(x: real, p: real)
    requires p > 0.0
    ensures (10.0 * x) / (10.0 * p) == x / p
  {
    assert (10.0 * x) / (10.0 * p) * (10.0 * p) == 10.0 * x;
    assert x / p * (10.0 * p) == 10.0 * x;
  }

  /** Appending a zero digit to a fraction leaves its value alone. */
  lemma TrailingZeroValue(whole: string, fraction: string)
    requires AllDigits(whole) && AllDigits(fraction + "0")
    ensures AllDigits(fraction)
    ensures PointedValue(whole, fraction + "0") == PointedValue(whole, fraction)
  {
    var long := fraction + "0";
    assert long[..|long| - 1] == fraction;
    assert DigitsValue(long) == 10 * DigitsValue(fraction);
    assert Pow10(|long|) == 10 * Pow10(|fraction|);
    ScaledFraction(DigitsValue(fraction) as real, Pow10(|fraction|) as real);
  }

  /** A trailing zero after the point does not change the number:
      "2.50" and "2.5" are one value. */
  lemma TrailingZeroIgnored(whole: string, fraction: string)
    requires AllDigits(whole) && AllDigits(fraction) && |whole| + |fraction| > 0
    ensures Parse(whole + "." + fraction + "0") == Parse(whole + "." + fraction)
  {
    var long := fraction + "0";
    assert whole + "." + fraction + "0" == whole + "." + long;
    assert AllDigits(long) by {
      forall k | 0 <= k < |long| ensures IsDigit(long[k]) {
        if k < |fraction| { assert long[k] == fraction[k]; }
      }
    }
    TrailingZeroValue(whole, fraction);
    ParsePointedSpelling(whole, long);
    ParsePointedSpelling(whole, fraction);
  }

  /** A point with nothing after it does not change the number:
      "2." and "2" are one value. */
  lemma BarePointIgnored(whole: string)
    requires AllDigits(whole) && whole != []
    ensures Parse(whole + ".") == Parse(whole)
  {
    ParsePointedSpelling(whole, "");
    assert whole + "." + "" == whole + ".";
    assert PointIndex(whole) == |whole|;
  }

  /** A whole number is the same value written with or without ".0". */
  lemma PointZeroIgnored(whole: string)
    requires AllDigits(whole) && whole != []
    ensures Parse(whole + ".0") == Parse(whole)
  {
    TrailingZeroIgnored(whole, "");
    assert whole + "." + "" + "0" == whole + ".0";
    assert whole + "." + "" == whole + ".";
    BarePointIgnored(whole);
  }

  /** "2" and "2.0" are the same depth. */
  lemma TwoAndTwoPointZero()
    ensures Parse("2") == Some(2.0)
    ensures Parse("2.0") == Some(2.0)
  {
    PointZeroIgnored("2");
    assert "2" + ".0" == "2.0";
  }
}
