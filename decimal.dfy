/** Decimal text of integers, as Python's f-string formatting renders an `int`
    (no sign for non-negative values, a leading '-' otherwise, no leading zeros),
    together with the reading back of that text. */
module Decimal {

  predicate IsDigit(c: char) {
    '0' <= c <= '9'
  }

  predicate AllDigits(s: string) {
    forall i :: 0 <= i < |s| ==> IsDigit(s[i])
  }

  function DigitValue(c: char): (d: nat)
    requires IsDigit(c)
    ensures d < 10
  {
    c as int - '0' as int
  }

  function DigitChar(d: nat): (c: char)
    requires d < 10
    ensures IsDigit(c) && DigitValue(c) == d
  {
    "0123456789"[d]
  }

  /** The decimal text of a natural number: never empty, and a leading '0'
      only for zero itself. */
  function Dec(n: nat): (s: string)
    ensures |s| >= 1 && IsDigit(s[0])
    ensures s[0] == '0' <==> n == 0
    ensures s[0] == '0' ==> |s| == 1
  {
    if n < 10 then [DigitChar(n)] else Dec(n / 10) + [DigitChar(n % 10)]
  }

  /** The decimal text holds nothing but digits. */
  lemma {:induction false} DecDigits(n: nat)
    ensures AllDigits(Dec(n))
  {
    if n >= 10 {
      DecDigits(n / 10);
    }
  }

  /** The value of a digit string, most significant digit first. */
  function DecValue(s: string): nat
    requires AllDigits(s)
  {
    if s == [] then 0 else 10 * DecValue(s[..|s| - 1]) + DigitValue(s[|s| - 1])
  }

  lemma {:induction false} DecRoundTrip(n: nat)
    ensures AllDigits(Dec(n)) && DecValue(Dec(n)) == n
  {
    DecDigits(n);
    if n >= 10 {
      var s := Dec(n);
      assert s[..|s| - 1] == Dec(n / 10);
      DecRoundTrip(n / 10);
    }
  }

  /** Distinct naturals have distinct decimal texts. */
  lemma DecInjective(m: nat, n: nat)
    requires Dec(m) == Dec(n)
    ensures m == n
  {
    DecRoundTrip(m);
    DecRoundTrip(n);
  }

  /** Text that reads as an integer: digits, optionally after one '-'. */
  predicate IsIntText(s: string) {
    AllDigits(s) || (|s| > 0 && s[0] == '-' && AllDigits(s[1..]))
  }

  /** `f'{i}'` for a Python `int`. */
  function Text(i: int): (s: string)
    ensures |s| >= 1
    ensures s[0] == '-' <==> i < 0
  {
    if i < 0 then "-" + Dec(-i) else Dec(i)
  }

  /** `f'{i}'` reads as an integer. */
  lemma TextWellFormed(i: int)
    ensures IsIntText(Text(i))
  {
    if i < 0 {
      DecDigits(-i);
      assert Text(i)[1..] == Dec(-i);
    } else {
      DecDigits(i);
    }
  }

  function TextValue(s: string): int
    requires IsIntText(s)
  {
    if |s| > 0 && s[0] == '-' then -(DecValue(s[1..]) as int) else DecValue(s)
  }

  lemma TextRoundTrip(i: int)
    ensures IsIntText(Text(i)) && TextValue(Text(i)) == i
  {
    TextWellFormed(i);
    if i < 0 {
      var d := Dec(-i);
      assert ("-" + d)[1..] == d;
      DecRoundTrip(-i);
    } else {
      DecRoundTrip(i);
    }
  }

  /** Distinct integers have distinct texts. */
  lemma TextInjective(i: int, j: int)
    requires Text(i) == Text(j)
    ensures i == j
  {
    TextRoundTrip(i);
    TextRoundTrip(j);
  }
}
