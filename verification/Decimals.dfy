/** Decimal notation, as template literals print integers. */
module Decimals {
  function Digit(d: int): char
    requires 0 <= d < 10
  {
    ('0' as int + d) as char
  }

  function Digits(n: nat): string {
    if n < 10 then [Digit(n)] else Digits(n / 10) + [Digit(n % 10)]
  }

  function Decimal(n: int): string { if n < 0 then "-" + Digits(-n) else Digits(n) }

  predicate AllDigits(s: string) { forall i :: 0 <= i < |s| ==> '0' <= s[i] <= '9' }

  lemma {:induction false} DigitsAreDigits(n: nat)
    ensures Digits(n) != [] && AllDigits(Digits(n)) && (|Digits(n)| > 1 <==> n >= 10)
    decreases n
  {
    if n >= 10 {
      DigitsAreDigits(n / 10);
    }
  }

  /** The number a numeral denotes, most significant digit first. */
  function Value(s: string): nat
    requires AllDigits(s)
  {
    if s == [] then 0 else 10 * Value(s[..|s| - 1]) + (s[|s| - 1] as int - '0' as int)
  }

  /** The digits denote the number, without a leading zero. */
  lemma {:induction false} DigitsDenote(n: nat)
    ensures Digits(n) != [] && AllDigits(Digits(n)) && Value(Digits(n)) == n
    ensures n > 0 ==> Digits(n)[0] != '0'
    decreases n
  {
    if n >= 10 {
      DigitsDenote(n / 10);
      assert Digits(n)[..|Digits(n)| - 1] == Digits(n / 10);
    } else {
      assert Value([]) == 0;
    }
  }

  lemma {:induction false} DigitInjective(a: int, b: int)
    requires 0 <= a < 10 && 0 <= b < 10 && Digit(a) == Digit(b)
    ensures a == b
  {
  }

  /** The last digit and what stands before it. */
  lemma {:induction false} DigitsLast(n: nat)
    ensures Digits(n) != [] && Digits(n)[|Digits(n)| - 1] == Digit(n % 10)
    ensures n >= 10 ==> Digits(n)[..|Digits(n)| - 1] == Digits(n / 10)
  {
    hide Digit;
  }

  lemma {:induction false} QuotientAndRemainder(a: nat, b: nat)
    requires a / 10 == b / 10 && a % 10 == b % 10
    ensures a == b
  {
    assert a == 10 * (a / 10) + a % 10 && b == 10 * (b / 10) + b % 10;
  }

  lemma {:induction false} DigitsInjective(a: nat, b: nat)
    requires Digits(a) == Digits(b)
    ensures a == b
    decreases a
  {
    hide Digits, Digit;
    DigitsLast(a);
    DigitsLast(b);
    DigitInjective(a % 10, b % 10);
    DigitsAreDigits(a);
    DigitsAreDigits(b);
    if a >= 10 {
      DigitsInjective(a / 10, b / 10);
    }
    QuotientAndRemainder(a, b);
  }

  lemma {:induction false} DecimalInjective(a: int, b: int)
    requires Decimal(a) == Decimal(b)
    ensures a == b
  {
    hide Digits;
    var m, n := if a < 0 then -a else a, if b < 0 then -b else b;
    DigitsAreDigits(m);
    DigitsAreDigits(n);
    assert a < 0 ==> Decimal(a)[0] == '-' && Decimal(a)[1..] == Digits(m);
    assert b < 0 ==> Decimal(b)[0] == '-' && Decimal(b)[1..] == Digits(n);
    DigitsInjective(m, n);
  }
}
