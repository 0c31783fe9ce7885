/**
 * Decimal digit runs and their numeric values.
 *
 * `DigitsValue(s, k)` is the number that the first `k` characters of `s`
 * spell, which is what `s[..k].parse::<u32>()` yields when those
 * characters are ASCII digits. Leading zeros vanish: "044" is 44.
 */
module Digits {

  predicate IsAsciiDigit(c: char) {
    '0' <= c <= '9'
  }

  /** The first `k` characters of `s` exist and are ASCII digits. */
  predicate LeadingDigits(s: string, k: nat) {
    k <= |s| && forall i | 0 <= i < k :: IsAsciiDigit(s[i])
  }

  function DigitValue(c: char): (d: nat)
    requires IsAsciiDigit(c)
    ensures d < 10
  {
    c as int - '0' as int
  }

  /** The character spelling one decimal digit; the inverse of DigitValue. */
  function DigitChar(d: nat): (c: char)
    requires d < 10
    ensures IsAsciiDigit(c) && DigitValue(c) == d
  {
    ('0' as int + d) as char
  }

  function Pow10(k: nat): (p: nat)
    ensures p >= 1
  {
    if k == 0 then 1 else 10 * Pow10(k - 1)
  }

  /** The number spelled by the first `k` characters of `s`, most significant first. */
  function DigitsValue(s: string, k: nat): (n: nat)
    requires LeadingDigits(s, k)
    ensures n < Pow10(k)
  {
    if k == 0 then 0 else DigitsValue(s, k - 1) * 10 + DigitValue(s[k - 1])
  }

  /** Only the first `k` characters take part in the value. */
  lemma {:induction false} DigitsValueDependsOnLeading(s: string, t: string, k: nat)
    requires LeadingDigits(s, k) && k <= |t|
    requires forall i | 0 <= i < k :: s[i] == t[i]
    ensures LeadingDigits(t, k)
    ensures DigitsValue(s, k) == DigitsValue(t, k)
  {
    if k > 0 {
      DigitsValueDependsOnLeading(s, t, k - 1);
    }
  }

  /** A leading zero does not change the value: "044" and "44" are both 44. */
  lemma {:induction false} LeadingZeroVanishes(s: string, k: nat)
    requires LeadingDigits(s, k)
    ensures LeadingDigits(['0'] + s, k + 1)
    ensures DigitsValue(['0'] + s, k + 1) == DigitsValue(s, k)
  {
    var z := ['0'] + s;
    if k > 0 {
      LeadingZeroVanishes(s, k - 1);
      assert z[k] == s[k - 1];
    }
  }

  /** A run whose first digit is not '0' has exactly `k` significant digits. */
  lemma {:induction false} DigitsValueLowerBound(s: string, k: nat)
    requires LeadingDigits(s, k) && k >= 1 && s[0] != '0'
    ensures DigitsValue(s, k) >= Pow10(k - 1)
  {
    if k > 1 {
      DigitsValueLowerBound(s, k - 1);
    }
  }

  /** The canonical decimal spelling of `n`: no leading zero unless `n` is 0. */
  function DecimalDigits(n: nat): (s: string)
    ensures 1 <= |s| && LeadingDigits(s, |s|)
    ensures |s| > 1 ==> s[0] != '0'
    ensures n < Pow10(|s|)
  {
    if n < 10 then [DigitChar(n)] else DecimalDigits(n / 10) + [DigitChar(n % 10)]
  }

  /** Parsing the decimal spelling of `n` gives back `n`. */
  lemma {:induction false} DigitsValueOfDecimal(n: nat)
    ensures DigitsValue(DecimalDigits(n), |DecimalDigits(n)|) == n
  {
    var s := DecimalDigits(n);
    if n >= 10 {
      var p := DecimalDigits(n / 10);
      DigitsValueOfDecimal(n / 10);
      DigitsValueDependsOnLeading(p, s, |p|);
    }
  }

  /** Spelling the value of a canonical digit run gives back the run. */
  lemma {:induction false} DecimalOfDigitsValue(s: string)
    requires 1 <= |s| && LeadingDigits(s, |s|)
    requires |s| > 1 ==> s[0] != '0'
    ensures DecimalDigits(DigitsValue(s, |s|)) == s
  {
    var k := |s|;
    var n := DigitsValue(s, k);
    if k == 1 {
      assert DigitChar(DigitValue(s[0])) == s[0];
    } else {
      var p := s[..k - 1];
      DigitsValueDependsOnLeading(s, p, k - 1);
      DigitsValueLowerBound(p, k - 1);
      DecimalOfDigitsValue(p);
      assert n / 10 == DigitsValue(p, k - 1) && n % 10 == DigitValue(s[k - 1]);
      assert DigitChar(DigitValue(s[k - 1])) == s[k - 1];
      assert s == p + [s[k - 1]];
    }
  }
}
