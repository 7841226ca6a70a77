/**
 * Decimal text: Python's `"{:0Nd}".format(n)` for non-negative integers and
 * `int(s)` on a string of decimal digits with an optional sign.
 */
module Decimal {
  import opened Wrappers

  predicate IsDigit(c: char)
  {
    '0' <= c <= '9'
  }

  function DigitChar(d: nat): (c: char)
    requires d < 10
    ensures IsDigit(c)
  {
    (d + '0' as int) as char
  }

  function DigitValue(c: char): (d: nat)
    requires IsDigit(c)
    ensures d < 10 && DigitChar(d) == c
  {
    c as int - '0' as int
  }

  predicate AllDigits(s: string)
  {
    forall k :: 0 <= k < |s| ==> IsDigit(s[k])
  }

  /** `str(n)`: the shortest decimal spelling of `n`. */
  function Digits(n: nat): (r: string)
    ensures |r| >= 1 && AllDigits(r)
    ensures n >= 10 ==> r[0] != '0'
    decreases n
  {
    if n < 10 then [DigitChar(n)] else Digits(n / 10) + [DigitChar(n % 10)]
  }

  /** The value of a string of digits, leading zeros allowed. */
  function ParseDigits(s: string): nat
    requires AllDigits(s)
  {
    if s == [] then 0 else ParseDigits(s[..|s| - 1]) * 10 + DigitValue(s[|s| - 1])
  }

  lemma {:induction false} ParseOfDigits(n: nat)
    ensures ParseDigits(Digits(n)) == n
    decreases n
  {
    if n >= 10 {
      ParseOfDigits(n / 10);
      var d := Digits(n);
      assert d[..|d| - 1] == Digits(n / 10);
    }
  }

  function Zeros(k: nat): (r: string)
    ensures |r| == k && AllDigits(r)
    ensures forall i :: 0 <= i < k ==> r[i] == '0'
  {
    if k == 0 then "" else Zeros(k - 1) + "0"
  }

  lemma {:induction false} ParseZeros(k: nat)
    ensures ParseDigits(Zeros(k)) == 0
  {
    if k > 0 {
      ParseZeros(k - 1);
      assert Zeros(k)[..k - 1] == Zeros(k - 1);
    }
  }

  /** Leading zeros do not change the value. */
  lemma {:induction false} ParseLeadingZeros(k: nat, s: string)
    requires AllDigits(s)
    ensures ParseDigits(Zeros(k) + s) == ParseDigits(s)
    decreases |s|
  {
    if s == [] {
      assert Zeros(k) + s == Zeros(k);
      ParseZeros(k);
    } else {
      ParseLeadingZeros(k, s[..|s| - 1]);
      assert (Zeros(k) + s)[..|Zeros(k) + s| - 1] == Zeros(k) + s[..|s| - 1];
    }
  }

  /** `"{:0<width>d}".format(n)`: at least `width` characters, padded with zeros on the left. */
  function ZeroPadded(n: nat, width: nat): string
  {
    var d := Digits(n);
    (if |d| < width then Zeros(width - |d|) else "") + d
  }

  /** Padding is undone by parsing: the value is recovered, so distinct numbers get distinct text. */
  lemma ZeroPaddedRoundTrip(n: nat, width: nat)
    ensures AllDigits(ZeroPadded(n, width))
    ensures ParseDigits(ZeroPadded(n, width)) == n
  {
    ParseOfDigits(n);
    var d := Digits(n);
    if |d| < width {
      ParseLeadingZeros(width - |d|, d);
      assert ZeroPadded(n, width) == Zeros(width - |d|) + d;
    } else {
      assert ZeroPadded(n, width) == d;
    }
  }

  lemma ZeroPaddedInjective(m: nat, n: nat, width: nat)
    ensures ZeroPadded(m, width) == ZeroPadded(n, width) ==> m == n
  {
    ZeroPaddedRoundTrip(m, width);
    ZeroPaddedRoundTrip(n, width);
  }

  /** A number below `10^k` has at most `k` digits. */
  lemma {:induction false} DigitsLength(n: nat, k: nat)
    requires n < Pow10(k)
    ensures |Digits(n)| <= k || (n == 0 && k == 0)
    decreases k
  {
    if n >= 10 {
      DigitsLength(n / 10, k - 1);
    }
  }

  function Pow10(k: nat): (p: nat)
    ensures p >= 1
  {
    if k == 0 then 1 else 10 * Pow10(k - 1)
  }

  /** Below `10^width` the padded text is exactly `width` characters long. */
  lemma ZeroPaddedLength(n: nat, width: nat)
    requires width >= 1 && n < Pow10(width)
    ensures |ZeroPadded(n, width)| == width
  {
    DigitsLength(n, width);
  }

  /**
   * `int(s)` of Python for an optional sign followed by digits; `None` where
   * Python raises `ValueError`.
   */
  function ParseInt(s: string): (r: Option<int>)
    ensures r.Some? <==> (s != [] && AllDigits(s)) ||
                         (|s| >= 2 && (s[0] == '-' || s[0] == '+') && AllDigits(s[1..]))
  {
    if s != [] && AllDigits(s) then Some(ParseDigits(s))
    else if |s| >= 2 && (s[0] == '-' || s[0] == '+') && AllDigits(s[1..]) then
      var v: int := ParseDigits(s[1..]);
      Some(if s[0] == '-' then -v else v)
    else None
  }

  /** `int(str(n)) == n` for every integer `n`. */
  lemma ParseIntOfString(n: int)
    ensures ParseInt(if n < 0 then "-" + Digits(-n) else Digits(n)) == Some(n)
  {
    if n < 0 {
      NegativeRoundTrip(-n);
    } else {
      ParseOfDigits(n);
    }
  }

  lemma NegativeRoundTrip(m: nat)
    requires m > 0
    ensures ParseInt("-" + Digits(m)) == Some(-(m as int))
  {
    var s := "-" + Digits(m);
    assert s[1..] == Digits(m);
    assert !AllDigits(s) by { assert !IsDigit(s[0]); }
    ParseOfDigits(m);
  }
}
