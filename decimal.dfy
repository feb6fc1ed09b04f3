/**
 * Decimal text for natural numbers: what JavaScript's `index.toString()` and
 * Python's f-string formatting print for a non-negative integer, and what
 * JavaScript's `Number(text)` yields for a string made only of ASCII digits.
 */
module Decimal {

  predicate IsDigit(c: char) { '0' <= c <= '9' }

  predicate IsDigits(s: string) {
    forall i :: 0 <= i < |s| ==> IsDigit(s[i])
  }

  function DigitChar(d: nat): (c: char)
    requires d < 10
    ensures IsDigit(c)
  {
    ['0', '1', '2', '3', '4', '5', '6', '7', '8', '9'][d]
  }

  function DigitValue(c: char): nat
    requires IsDigit(c)
  {
    (c as int - '0' as int) as nat
  }

  /** The value of a string of digits, leading zeros allowed ("007" is 7, "" is 0). */
  function DecimalValue(s: string): nat
    requires IsDigits(s)
    decreases |s|
  {
    if s == [] then 0 else DecimalValue(s[..|s| - 1]) * 10 + DigitValue(s[|s| - 1])
  }

  /** The shortest decimal spelling of `n`, without sign or leading zeros. */
  function NatToString(n: nat): (s: string)
    ensures IsDigits(s) && |s| > 0
    ensures |s| > 1 ==> s[0] != '0'
    decreases n
  {
    (if n < 10 then "" else NatToString(n / 10)) + [DigitChar(n % 10)]
  }

  lemma DigitRoundTrip(d: nat)
    requires d < 10
    ensures DigitValue(DigitChar(d)) == d
  {
  }

  /** Reading back the spelling of `n` gives `n`. */
  lemma {:induction false} DecimalRoundTrip(n: nat)
    ensures DecimalValue(NatToString(n)) == n
    decreases n
  {
    var s := NatToString(n);
    var prefix := if n < 10 then "" else NatToString(n / 10);
    var d := n % 10;
    assert s == prefix + [DigitChar(d)];
    assert s[..|s| - 1] == prefix;
    assert s[|s| - 1] == DigitChar(d);
    DigitRoundTrip(d);
    var q := n / 10;
    assert n == q * 10 + d;
    if n >= 10 {
      DecimalRoundTrip(q);
      assert DecimalValue(prefix) == q;
    } else {
      assert q == 0;
    }
    assert DecimalValue(s) == DecimalValue(prefix) * 10 + DigitValue(DigitChar(d));
  }

  /** Different numbers are spelled differently (so row ids made from indices are distinct). */
  lemma NatToStringInjective(m: nat, n: nat)
    requires m != n
    ensures NatToString(m) != NatToString(n)
  {
    DecimalRoundTrip(m);
    DecimalRoundTrip(n);
  }
}
