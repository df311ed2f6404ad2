/**
 * Rust's decimal text conversions for `i64`: `str::parse::<i64>()` (used on the
 * fraction digits a timestamp pattern captures) and `Display` (used for the
 * interval column), plus the zero-padded and width-padded forms built on them.
 */
module Decimal {
  import opened Wrappers

  const I64Min: int := -0x8000_0000_0000_0000
  const I64Max: int := 0x7FFF_FFFF_FFFF_FFFF

  predicate IsDigit(c: char) {
    '0' <= c <= '9'
  }

  predicate AllDigits(s: string) {
    forall i :: 0 <= i < |s| ==> IsDigit(s[i])
  }

  function DigitValue(c: char): (d: nat)
    requires IsDigit(c)
    ensures d < 10
  {
    (c as int) - ('0' as int)
  }

  function DigitChar(d: nat): (c: char)
    requires d < 10
    ensures IsDigit(c) && DigitValue(c) == d
  {
    ('0' as int + d) as char
  }

  /** The value of a string of ASCII digits, most significant digit first. */
  function DigitsValue(s: string): nat
    requires AllDigits(s)
  {
    if |s| == 0 then 0 else DigitsValue(s[..|s| - 1]) * 10 + DigitValue(s[|s| - 1])
  }

  /**
   * `str::parse::<i64>()`: an optional '+' or '-', then at least one ASCII digit,
   * and a value inside the i64 range; anything else is an error (None).
   */
  function ParseI64(s: string): (r: Option<int>)
    ensures r.Some? ==> I64Min <= r.value <= I64Max
    ensures AllDigits(s) && |s| > 0 && DigitsValue(s) <= I64Max ==> r == Some(DigitsValue(s))
  {
    if |s| == 0 then None
    else
      var digits := if s[0] == '+' || s[0] == '-' then s[1..] else s;
      if |digits| == 0 || !AllDigits(digits) then None
      else
        var v: int := if s[0] == '-' then 0 - (DigitsValue(digits) as int) else DigitsValue(digits);
        if I64Min <= v <= I64Max then Some(v) else None
  }

  /** Decimal digits of a natural number, without leading zeros. */
  function ShowNat(n: nat): (s: string)
    ensures |s| > 0 && AllDigits(s)
  {
    if n < 10 then [DigitChar(n)] else ShowNat(n / 10) + [DigitChar(n % 10)]
  }

  /** `Display` for `i64`: a '-' for negative values, then the digits of the magnitude. */
  function ShowInt(n: int): string {
    if n < 0 then "-" + ShowNat(-n) else ShowNat(n)
  }

  /** `n` copies of `c`. */
  function Repeat(c: char, n: nat): (s: string)
    ensures |s| == n
    ensures forall i :: 0 <= i < n ==> s[i] == c
  {
    if n == 0 then [] else Repeat(c, n - 1) + [c]
  }

  /** `s` right-aligned in a field of `width` characters, as `{:width}` does for numbers. */
  function PadLeft(s: string, width: nat): (r: string)
    ensures |r| == if |s| < width then width else |s|
    ensures r[|r| - |s|..] == s
    ensures forall i :: 0 <= i < |r| - |s| ==> r[i] == ' '
  {
    (if |s| < width then Repeat(' ', width - |s|) else []) + s
  }

  /** `n` with leading zeros up to `width` digits, as chrono's `%Y`, `%m` and `%d` write it. */
  function ZeroPad(n: nat, width: nat): (r: string)
    ensures AllDigits(r)
    ensures |r| == if |ShowNat(n)| < width then width else |ShowNat(n)|
  {
    var digits := ShowNat(n);
    (if |digits| < width then Repeat('0', width - |digits|) else []) + digits
  }

  lemma {:induction false} DigitsValueAppend(s: string, c: char)
    requires AllDigits(s) && IsDigit(c)
    ensures AllDigits(s + [c])
    ensures DigitsValue(s + [c]) == DigitsValue(s) * 10 + DigitValue(c)
  {
    assert (s + [c])[..|s + [c]| - 1] == s;
  }

  /** Reading the digits `ShowNat` writes gives the number back. */
  lemma {:induction false} ShowNatValue(n: nat)
    ensures DigitsValue(ShowNat(n)) == n
  {
    if n >= 10 {
      ShowNatValue(n / 10);
      DigitsValueAppend(ShowNat(n / 10), DigitChar(n % 10));
    }
  }

  /** A digit string of `k` digits has a value below 10^k. */
  lemma {:induction false} DigitsValueBound(s: string)
    requires AllDigits(s)
    ensures DigitsValue(s) < Pow10(|s|)
  {
    if |s| > 0 {
      DigitsValueBound(s[..|s| - 1]);
    }
  }

  /** A number below 10^k is written with at most k digits. */
  lemma {:induction false} ShowNatLength(n: nat, k: nat)
    requires 1 <= k && n < Pow10(k)
    ensures |ShowNat(n)| <= k
  {
    if n >= 10 {
      assert k >= 2 && n / 10 < Pow10(k - 1);
      ShowNatLength(n / 10, k - 1);
    }
  }

  function Pow10(k: nat): (p: nat)
    ensures p >= 1
  {
    if k == 0 then 1 else 10 * Pow10(k - 1)
  }

  /** Leading zeros do not change the value of a digit string. */
  lemma {:induction false} LeadingZeros(z: nat, s: string)
    requires AllDigits(s)
    ensures AllDigits(Repeat('0', z) + s)
    ensures DigitsValue(Repeat('0', z) + s) == DigitsValue(s)
  {
    var zs := Repeat('0', z);
    if |s| == 0 {
      assert zs + s == zs;
      ZerosValue(z);
    } else {
      var init := s[..|s| - 1];
      LeadingZeros(z, init);
      assert zs + s == (zs + init) + [s[|s| - 1]];
      DigitsValueAppend(zs + init, s[|s| - 1]);
      assert init + [s[|s| - 1]] == s;
      DigitsValueAppend(init, s[|s| - 1]);
    }
  }

  lemma {:induction false} ZerosValue(z: nat)
    ensures AllDigits(Repeat('0', z))
    ensures DigitsValue(Repeat('0', z)) == 0
  {
    if z > 0 {
      ZerosValue(z - 1);
      DigitsValueAppend(Repeat('0', z - 1), '0');
    }
  }

  /** Parsing what `Display` writes gives the number back, over the whole i64 range. */
  lemma ParseShowInt(n: int)
    requires I64Min <= n <= I64Max
    ensures ParseI64(ShowInt(n)) == Some(n)
  {
    var m: nat := if n < 0 then -n else n;
    ShowNatValue(m);
    var digits := ShowNat(m);
    if n < 0 {
      assert ShowInt(n)[1..] == digits;
    } else {
      assert ShowInt(n)[0] == digits[0] && IsDigit(digits[0]);
    }
  }

  /** Parsing a zero-padded number gives the number back. */
  lemma ParseZeroPad(n: nat, width: nat)
    requires n <= I64Max
    ensures ParseI64(ZeroPad(n, width)) == Some(n)
  {
    var digits := ShowNat(n);
    ShowNatValue(n);
    var z: nat := if |digits| < width then width - |digits| else 0;
    assert ZeroPad(n, width) == Repeat('0', z) + digits;
    LeadingZeros(z, digits);
  }
}
