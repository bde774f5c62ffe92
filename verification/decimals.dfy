// Numbers written in decimal digits.
module Decimals {
  predicate IsDigit(c: char) {
    '0' <= c <= '9'
  }

  predicate IsHexDigit(c: char) {
    IsDigit(c) || 'a' <= c <= 'f' || 'A' <= c <= 'F'
  }

  ghost predicate AllDigits(s: string) {
    forall k :: 0 <= k < |s| ==> IsDigit(s[k])
  }

  // The number the digits of a text stand for
  function Decimal(digits: string): nat
    requires AllDigits(digits)
  {
    if |digits| == 0 then 0
    else
      var last := digits[|digits| - 1];
      assert IsDigit(last);
      10 * Decimal(digits[..|digits| - 1]) + (last as int - '0' as int)
  }

  // The digits of a number
  function Digits(n: nat): (r: string)
    ensures |r| > 0 && AllDigits(r)
  {
    (if n < 10 then "" else Digits(n / 10)) + [('0' as int + n % 10) as char]
  }

  function Power(n: nat): nat {
    if n == 0 then 1 else 10 * Power(n - 1)
  }

  lemma DecimalAppend(s: string, d: nat)
    requires AllDigits(s) && d < 10
    ensures var c := ('0' as int + d) as char; AllDigits(s + [c]) && Decimal(s + [c]) == 10 * Decimal(s) + d
  {
    var t := s + [('0' as int + d) as char];
    assert t[..|t| - 1] == s;
  }

  lemma DigitsStep(n: nat)
    ensures Digits(n) == (if n < 10 then "" else Digits(n / 10)) + [('0' as int + n % 10) as char]
    ensures n == 10 * (n / 10) + n % 10 && Decimal("") == 0
  {
  }

  lemma {:induction false} DecimalOfDigits(n: nat)
    ensures Decimal(Digits(n)) == n
    decreases n
  {
    hide Decimal, Digits;
    DigitsStep(n);
    var rest := if n < 10 then "" else Digits(n / 10);
    if n >= 10 {
      DecimalOfDigits(n / 10);
    }
    DecimalAppend(rest, n % 10);
  }

  // The first digit counts for its power of ten
  lemma {:induction false} DecimalFront(s: string)
    requires |s| > 0 && AllDigits(s)
    ensures Decimal(s) == (s[0] as int - '0' as int) * Power(|s| - 1) + Decimal(s[1..])
    decreases |s|
  {
    if |s| > 1 {
      var front := s[..|s| - 1];
      DecimalFront(front);
      assert s[1..][..|s| - 2] == front[1..];
      assert s[1..][|s| - 2] == s[|s| - 1];
      assert Power(|s| - 1) == 10 * Power(|s| - 2);
      var d := s[0] as int - '0' as int;
      assert 10 * (d * Power(|s| - 2)) == d * (10 * Power(|s| - 2));
    } else {
      assert s[..0] == s[1..] == "";
    }
  }
}
