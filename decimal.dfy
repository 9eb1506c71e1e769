/** Decimal text of integers: the plain rendering that JavaScript's
    `Number.prototype.toString()` gives an integer value, and the reading
    back of such text. */
module Decimal {

  predicate IsDigit(c: char) {
    '0' <= c <= '9'
  }

  predicate AllDigits(s: string) {
    forall i :: 0 <= i < |s| ==> IsDigit(s[i])
  }

  /** A canonical numeral: non-empty, digits only, and no leading zero
      unless the numeral is "0" itself. */
  predicate IsCanonical(s: string) {
    |s| >= 1 && AllDigits(s) && (s[0] == '0' ==> |s| == 1)
  }

  function Pow10(k: nat): (p: nat)
    ensures p >= 1
  {
    if k == 0 then 1 else 10 * Pow10(k - 1)
  }

  function DigitValue(c: char): (d: nat)
    requires IsDigit(c)
    ensures d < 10
  {
    (c as int) - ('0' as int)
  }

  function DigitChar(d: nat): (c: char)
    requires d < 10
    ensures IsDigit(c) && DigitValue(c) == d
  {
    (('0' as int) + d) as char
  }

  /** The decimal numeral of a non-negative integer, most significant digit
      first. */
  function NatToString(n: nat): (s: string)
    ensures IsCanonical(s)
    ensures s == "0" <==> n == 0
    decreases n
  {
    if n < 10 then [DigitChar(n)] else NatToString(n / 10) + [DigitChar(n % 10)]
  }

  /** `x.toString()` for an integer-valued number: a minus sign in front of
      the numeral of the magnitude when the value is negative. */
  function IntToString(x: int): (s: string)
    ensures x >= 0 ==> IsCanonical(s)
    ensures x < 0 ==> |s| >= 2 && s[0] == '-' && IsCanonical(s[1..]) && s[1..] != "0"
  {
    if x < 0 then "-" + NatToString(-x) else NatToString(x)
  }

  /** The value of a digit string (the empty string reads as 0). */
  function ParseDigits(s: string): (n: nat)
    requires AllDigits(s)
    ensures n < Pow10(|s|)
  {
    if s == [] then 0
    else
      var p := ParseDigits(s[..|s| - 1]);
      assert p + 1 <= Pow10(|s| - 1);
      10 * p + DigitValue(s[|s| - 1])
  }

  /** Reads back the text `IntToString` produces: an optional minus sign
      followed by digits. */
  function ParseInt(s: string): (x: int)
    requires AllDigits(s) || (|s| >= 1 && s[0] == '-' && AllDigits(s[1..]))
    ensures (|s| >= 1 && s[0] == '-') ==> x <= 0
    ensures AllDigits(s) ==> x >= 0
  {
    if |s| >= 1 && s[0] == '-' then -(ParseDigits(s[1..]) as int) else ParseDigits(s)
  }

  lemma DigitRoundTrip(c: char)
    requires IsDigit(c)
    ensures DigitChar(DigitValue(c)) == c
  {
  }

  /** Reading a rendered numeral gives back the number. */
  lemma {:induction false} ParseNatToString(n: nat)
    ensures ParseDigits(NatToString(n)) == n
  {
    var s := NatToString(n);
    if n >= 10 {
      ParseNatToString(n / 10);
      assert s[..|s| - 1] == NatToString(n / 10);
    }
  }

  /** A digit string whose first digit is not zero is worth at least one. */
  lemma {:induction false} LeadingDigitPositive(s: string)
    requires |s| >= 1 && AllDigits(s) && s[0] != '0'
    ensures ParseDigits(s) >= 1
  {
    if |s| > 1 {
      LeadingDigitPositive(s[..|s| - 1]);
    }
  }

  /** Rendering the value of a canonical numeral gives back the numeral. */
  lemma {:induction false} NatToStringParse(s: string)
    requires IsCanonical(s)
    ensures NatToString(ParseDigits(s)) == s
  {
    var n := ParseDigits(s);
    if |s| == 1 {
      DigitRoundTrip(s[0]);
    } else {
      var p := s[..|s| - 1];
      LeadingDigitPositive(p);
      NatToStringParse(p);
      DigitRoundTrip(s[|s| - 1]);
      assert n / 10 == ParseDigits(p) && n % 10 == DigitValue(s[|s| - 1]);
    }
  }

  /** Rendering and reading back signed integers are inverse to each other. */
  lemma ParseIntToString(x: int)
    ensures ParseInt(IntToString(x)) == x
  {
    if x < 0 {
      var s := IntToString(x);
      assert s[1..] == NatToString(-x);
      ParseNatToString(-x);
    } else {
      ParseNatToString(x);
    }
  }

  /** The numeral of n has at most k digits exactly when n < 10^k. */
  lemma {:induction false} DigitCount(n: nat, k: nat)
    requires k >= 1
    ensures |NatToString(n)| <= k <==> n < Pow10(k)
  {
    if n >= 10 && k > 1 {
      DigitCount(n / 10, k - 1);
    } else if n >= 10 {
      assert |NatToString(n)| == |NatToString(n / 10)| + 1;
    }
  }
}
