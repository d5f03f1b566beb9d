/** The one-time code as text. The handler draws a whole number between
    1000 and 9999 and stores its decimal rendering (`toString()`); the draw
    itself is a parameter of the model, the rendering is modelled here. */
module OtpCode {

  const MIN_CODE := 1000
  const MAX_CODE := 9999

  predicate IsDigit(c: char)
  {
    '0' <= c <= '9'
  }

  predicate AllDigits(s: string)
  {
    forall i :: 0 <= i < |s| ==> IsDigit(s[i])
  }

  /** The character for a single decimal digit. */
  function DigitChar(d: nat): (c: char)
    requires d < 10
    ensures IsDigit(c) && c as int - '0' as int == d
  {
    ('0' as int + d) as char
  }

  /** The decimal rendering of a natural number, as JavaScript's
      `Number.prototype.toString()` gives it for an integer from 0 up to
      (not including) 10^21, where exponent notation takes over: digits
      only, at least one, and no leading zero. */
  function DecimalString(n: nat): (r: string)
    ensures |r| >= 1 && AllDigits(r)
    ensures n > 0 ==> r[0] != '0'
    ensures n == 0 ==> r == "0"
    decreases n
  {
    if n < 10 then [DigitChar(n)]
    else DecimalString(n / 10) + [DigitChar(n % 10)]
  }

  /** The number a string of decimal digits denotes; the reference reading
      of a code against which the rendering is checked. */
  function DigitsValue(s: string): (n: nat)
    requires AllDigits(s)
  {
    if s == [] then 0
    else 10 * DigitsValue(s[..|s| - 1]) + (s[|s| - 1] as int - '0' as int)
  }

  /** Reading a rendered number gives back the number, so distinct draws
      give distinct codes. */
  lemma {:induction false} DecimalStringRoundTrip(n: nat)
    ensures DigitsValue(DecimalString(n)) == n
  {
    if n >= 10 {
      var r := DecimalString(n);
      assert r[..|r| - 1] == DecimalString(n / 10);
      DecimalStringRoundTrip(n / 10);
    }
  }

  /** Every code the handler can draw renders as exactly four digits, the
      first of which is not zero. */
  lemma CodeIsFourDigits(n: nat)
    requires MIN_CODE <= n <= MAX_CODE
    ensures |DecimalString(n)| == 4 && AllDigits(DecimalString(n))
    ensures DecimalString(n)[0] != '0'
  {
    assert 1 <= n / 1000 < 10;
    assert |DecimalString(n / 1000)| == 1;
    assert |DecimalString(n / 100)| == 2 by {
      assert n / 100 / 10 == n / 1000;
    }
    assert |DecimalString(n / 10)| == 3 by {
      assert n / 10 / 10 == n / 100;
    }
  }
}
