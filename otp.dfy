/**
 * The simulated one-time code of sign-up: `sendOTP` draws
 * `Math.floor(1000 + Math.random() * 9000)` and keeps it as its decimal
 * string. The random draw is a parameter `rand` in [0, 1).
 */
module Otp {

  /** The numeric code for a draw `rand` of `Math.random()`. */
  function OtpCode(rand: real): (n: int)
    requires 0.0 <= rand < 1.0
    ensures 1000 <= n <= 9999
  {
    (1000.0 + rand * 9000.0).Floor
  }

  /** Every four-digit code is drawn by some `rand`. */
  lemma EveryCodeReachable(n: int)
    requires 1000 <= n <= 9999
    ensures 0.0 <= (n - 1000) as real / 9000.0 < 1.0
    ensures OtpCode((n - 1000) as real / 9000.0) == n
  {
    var rand := (n - 1000) as real / 9000.0;
    assert rand * 9000.0 == (n - 1000) as real;
  }

  function DigitChar(d: int): (c: char)
    requires 0 <= d < 10
    ensures '0' <= c <= '9'
  {
    (48 + d) as char
  }

  function DigitValue(c: char): int
  {
    c as int - 48
  }

  predicate AllDigits(s: string)
  {
    forall i :: 0 <= i < |s| ==> '0' <= s[i] <= '9'
  }

  /** `String(n)` for a natural number: its decimal digits, no leading zero. */
  function DecimalString(n: nat): (s: string)
    ensures |s| > 0 && AllDigits(s)
    ensures |s| > 1 ==> s[0] != '0'
  {
    if n < 10 then [DigitChar(n)] else DecimalString(n / 10) + [DigitChar(n % 10)]
  }

  /** The value of a string of decimal digits, read most significant first. */
  function ParseDecimal(s: string): int
  {
    if s == [] then 0 else 10 * ParseDecimal(s[..|s| - 1]) + DigitValue(s[|s| - 1])
  }

  /** Reading back the decimal string of `n` gives `n`. */
  lemma {:induction false} ParseDecimalString(n: nat)
    ensures ParseDecimal(DecimalString(n)) == n
  {
    var s := DecimalString(n);
    if n >= 10 {
      assert s[..|s| - 1] == DecimalString(n / 10);
      ParseDecimalString(n / 10);
    }
  }

  /** The decimal string of a four-digit code has exactly four digits. */
  lemma FourDigitCodes(n: int)
    requires 1000 <= n <= 9999
    ensures |DecimalString(n)| == 4
  {
    assert 100 <= n / 10 <= 999 && 10 <= n / 10 / 10 <= 99 && n / 10 / 10 / 10 < 10;
    assert |DecimalString(n / 10 / 10)| == 2;
    assert |DecimalString(n / 10)| == 3;
  }

  /** Different codes have different strings, so a typed code matches at most one draw. */
  lemma DecimalStringInjective(m: nat, n: nat)
    requires DecimalString(m) == DecimalString(n)
    ensures m == n
  {
    ParseDecimalString(m);
    ParseDecimalString(n);
  }
}
