/** Decimal digit strings: the pieces of `strptime`, `strftime` and `int()`
    that the views rely on. */
module Decimal {
  import opened Wrappers

  predicate IsDigit(c: char) {
    '0' <= c <= '9'
  }

  predicate AllDigits(s: string) {
    forall i | 0 <= i < |s| :: IsDigit(s[i])
  }

  function DigitValue(c: char): (v: nat)
    requires IsDigit(c)
    ensures v <= 9
  {
    c as int - '0' as int
  }

  function DigitChar(v: nat): (c: char)
    requires v <= 9
    ensures IsDigit(c) && DigitValue(c) == v
  {
    ('0' as int + v) as char
  }

  lemma DigitCharOfValue(c: char)
    requires IsDigit(c)
    ensures DigitChar(DigitValue(c)) == c
  {
  }

  /** The value of a string of decimal digits, most significant digit first. */
  function DigitsValue(s: string): nat
    requires AllDigits(s)
    decreases |s|
  {
    if s == [] then 0 else DigitsValue(s[..|s| - 1]) * 10 + DigitValue(s[|s| - 1])
  }

  lemma DigitsValueSnoc(s: string, c: char)
    requires AllDigits(s) && IsDigit(c)
    ensures AllDigits(s + [c])
    ensures DigitsValue(s + [c]) == DigitsValue(s) * 10 + DigitValue(c)
  {
    assert (s + [c])[..|s|] == s;
  }

  /** Python's `str` of a non-negative integer: its shortest decimal digits. */
  function NatDigits(n: nat): (s: string)
    ensures AllDigits(s) && |s| >= 1
    ensures n >= 10 ==> s[0] != '0'
    decreases n
  {
    if n < 10 then [DigitChar(n)] else NatDigits(n / 10) + [DigitChar(n % 10)]
  }

  lemma {:induction false} NatDigitsValue(n: nat)
    ensures DigitsValue(NatDigits(n)) == n
    decreases n
  {
    if n >= 10 {
      NatDigitsValue(n / 10);
      DigitsValueSnoc(NatDigits(n / 10), DigitChar(n % 10));
    }
  }

  /** Python's `str` of an integer. */
  function IntToString(n: int): string {
    if n < 0 then "-" + NatDigits(-n) else NatDigits(n)
  }

  /** Python's `int()` on a string, restricted to an optional sign followed
      by one or more decimal digits (leading zeros allowed). */
  function ParseInt(s: string): Option<int> {
    if |s| > 0 && (s[0] == '+' || s[0] == '-') then
      if |s| > 1 && AllDigits(s[1..]) then
        Some(if s[0] == '-' then -(DigitsValue(s[1..]) as int) else DigitsValue(s[1..]) as int)
      else
        None
    else if |s| > 0 && AllDigits(s) then
      Some(DigitsValue(s))
    else
      None
  }

  /** `int(str(n)) == n`: the parser reads back every integer's own spelling. */
  lemma ParseIntOfIntToString(n: int)
    ensures ParseInt(IntToString(n)) == Some(n)
  {
    if n < 0 {
      var s := IntToString(n);
      assert s[1..] == NatDigits(-n);
      NatDigitsValue(-n);
    } else {
      NatDigitsValue(n);
    }
  }

  /** A string holding a character that is neither a digit nor a leading
      sign is not an integer (`int('abcd')` raises). */
  lemma ParseIntRejectsNonDigit(s: string, k: nat)
    requires k < |s| && !IsDigit(s[k]) && !(k == 0 && (s[0] == '+' || s[0] == '-'))
    ensures ParseInt(s) == None
  {
    if |s| > 0 && (s[0] == '+' || s[0] == '-') {
      assert s[1..][k - 1] == s[k];
    }
  }
}
