/** Decimal rendering of unsigned integers as Rust's formatter writes them:
    `{}` prints the digits with no leading zero, and `{:0w$}` left-pads that
    with '0' up to a minimum width `w` (a longer rendering is never cut). */
module Decimal {

  function Pow10(n: nat): (p: nat)
    ensures p >= 1
  {
    if n == 0 then 1 else 10 * Pow10(n - 1)
  }

  lemma {:induction false} Pow10Monotone(i: nat, j: nat)
    requires i <= j
    ensures Pow10(i) <= Pow10(j)
  {
    if i < j {
      Pow10Monotone(i, j - 1);
    }
  }

  predicate IsDigit(c: char)
  {
    '0' <= c <= '9'
  }

  predicate AllDigits(s: string)
  {
    forall i :: 0 <= i < |s| ==> IsDigit(s[i])
  }

  function DigitChar(d: nat): (c: char)
    requires d < 10
    ensures IsDigit(c)
  {
    ('0' as int + d) as char
  }

  function DigitValue(c: char): (d: nat)
    requires IsDigit(c)
    ensures d < 10
  {
    c as int - '0' as int
  }

  /** `format!("{}", n)`: the digits of `n`, most significant first. The rendering
      is exact: only digits, no leading zero ("0" for zero), and reading them back gives `n`. */
  function Digits(n: nat): (d: string)
    ensures |d| >= 1 && AllDigits(d) && Value(d) == n
    ensures d[0] != '0' || n == 0
  {
    if n < 10 then [DigitChar(n)]
    else
      var d := Digits(n / 10) + [DigitChar(n % 10)];
      assert d[..|d| - 1] == Digits(n / 10);
      d
  }

  /** The number a string of decimal digits denotes. */
  function Value(s: string): nat
    requires AllDigits(s)
  {
    if s == [] then 0 else Value(s[..|s| - 1]) * 10 + DigitValue(s[|s| - 1])
  }

  function Zeros(k: nat): (z: string)
    ensures |z| == k
  {
    seq(k, _ => '0')
  }

  /** `format!("{:01$}", n, width)`: the digits of `n`, left-padded with '0' to at least
      `width`. The width is a minimum only: the rendering is never cut and never shorter
      than one digit, so width 0 still prints "0" for zero. It is longer than
      `width` only when it is the bare digits of `n`, it always denotes `n`, and it has exactly `width` digits when `width >= 1` and
      `n < 10^width`. */
  function ZeroPad(n: nat, width: nat): (s: string)
    ensures |s| >= 1 && |s| >= width
    ensures AllDigits(s) && Value(s) == n
    ensures 1 <= width && n < Pow10(width) ==> |s| == width
    ensures |s| == width || s == Digits(n)
  {
    var d := Digits(n);
    DigitsLength(n, if width >= 1 then width else 1);
    LeadingZeros(if |d| < width then width - |d| else 0, d);
    assert Zeros(0) + d == d;
    if |d| < width then Zeros(width - |d|) + d else d
  }

  /** A number below `10^k` (with `k >= 1`) needs at most `k` digits, and one of at least `10^(k-1)` needs at least `k`. */
  lemma {:induction false} DigitsLength(n: nat, k: nat)
    requires k >= 1
    ensures n < Pow10(k) ==> |Digits(n)| <= k
    ensures n >= Pow10(k - 1) ==> |Digits(n)| >= k
  {
    if n >= 10 && k >= 2 {
      DigitsLength(n / 10, k - 1);
    }
  }

  /** Leading zeros do not change the value of a digit string. */
  lemma {:induction false} LeadingZeros(k: nat, s: string)
    requires AllDigits(s)
    ensures AllDigits(Zeros(k) + s)
    ensures Value(Zeros(k) + s) == Value(s)
  {
    var t := Zeros(k) + s;
    if s == [] {
      assert t == Zeros(k);
      if k > 0 {
        assert t[..|t| - 1] == Zeros(k - 1) + [];
        LeadingZeros(k - 1, []);
      }
    } else {
      assert t[..|t| - 1] == Zeros(k) + s[..|s| - 1];
      LeadingZeros(k, s[..|s| - 1]);
    }
  }
}
