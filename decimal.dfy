/**
 * Decimal text for integers: `int(...)` applied to a run of ASCII digits,
 * and `str(...)` applied to an integer, as the bot's arithmetic solver
 * uses them.
 */
module Decimal {
  import opened Text

  function DigitValue(c: char): (d: nat)
    requires IsDigit(c)
    ensures d < 10
  {
    c as int - '0' as int
  }

  function DigitChar(d: nat): (c: char)
    requires d < 10
    ensures IsDigit(c) && DigitValue(c) == d
  {
    (d + '0' as int) as char
  }

  function Pow10(n: nat): (p: nat)
    ensures p >= 1
  {
    if n == 0 then 1 else 10 * Pow10(n - 1)
  }

  /** `int(s)` for a non-empty string of digits; leading zeros are allowed. */
  function ParseNat(s: string): (n: nat)
    requires AllDigits(s)
    ensures n < Pow10(|s|)
  {
    if s == [] then 0 else 10 * ParseNat(s[..|s| - 1]) + DigitValue(s[|s| - 1])
  }

  /** `str(n)` for a non-negative integer: shortest decimal text, no leading zero. */
  function NatToString(n: nat): (s: string)
    ensures 1 <= |s| && AllDigits(s)
    ensures s[0] == '0' ==> s == "0"
  {
    if n < 10 then [DigitChar(n)] else NatToString(n / 10) + [DigitChar(n % 10)]
  }

  /** Texts `str` produces for a non-negative integer. */
  predicate IsNatText(s: string) {
    1 <= |s| && AllDigits(s) && (s[0] == '0' ==> s == "0")
  }

  /** Texts `str` produces for any integer: an optional minus sign, then a natural. */
  predicate IsIntText(s: string) {
    if |s| > 0 && s[0] == '-' then IsNatText(s[1..]) && s[1..] != "0" else IsNatText(s)
  }

  /** `str(i)` for any integer. */
  function IntToString(i: int): (s: string)
    ensures IsIntText(s)
  {
    if i < 0 then "-" + NatToString(-i) else NatToString(i)
  }

  /** The integer that a text produced by `str` denotes. */
  function ParseInt(s: string): int
    requires IsIntText(s)
  {
    if |s| > 0 && s[0] == '-' then 0 - ParseNat(s[1..]) else ParseNat(s)
  }

  /** Reading back the text of `n` gives `n`. */
  lemma {:induction false} ParseNatToString(n: nat)
    ensures ParseNat(NatToString(n)) == n
  {
    if n >= 10 {
      var s := NatToString(n);
      assert s[..|s| - 1] == NatToString(n / 10);
      ParseNatToString(n / 10);
    }
  }

  /** Reading back the text of `i` gives `i`: `str` loses nothing. */
  lemma ParseIntToString(i: int)
    ensures ParseInt(IntToString(i)) == i
  {
    if i < 0 {
      assert IntToString(i)[1..] == NatToString(-i);
      ParseNatToString(-i);
    } else {
      ParseNatToString(i);
    }
  }

  /** Distinct integers have distinct texts. */
  lemma IntToStringInjective(i: int, j: int)
    requires IntToString(i) == IntToString(j)
    ensures i == j
  {
    ParseIntToString(i);
    ParseIntToString(j);
  }
}
