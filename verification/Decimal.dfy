/** Decimal numerals: the one canonical spelling of each number, and reading it back. */
module Decimals {

  predicate IsDigit(c: char) {
    '0' <= c <= '9'
  }

  function Digit(d: int): char
    requires 0 <= d < 10
  {
    '0' + d as char
  }

  function DigitValue(c: char): nat
    requires IsDigit(c)
  {
    c as int - '0' as int
  }

  function Pow10(n: nat): (p: nat)
    ensures p > 0
  {
    if n == 0 then 1 else 10 * Pow10(n - 1)
  }

  /** The plain decimal of v: no sign, no leading zero. */
  function Decimal(v: nat): (s: string)
    ensures s != [] && forall c :: c in s ==> IsDigit(c)
  {
    if v < 10 then [Digit(v)] else Decimal(v / 10) + [Digit(v % 10)]
  }

  /** The number a run of digits denotes. */
  function Number(s: string): nat
    requires forall c :: c in s ==> IsDigit(c)
  {
    if s == [] then 0 else Number(s[..|s| - 1]) * 10 + DigitValue(s[|s| - 1])
  }

  lemma {:induction false} NumberOfDecimal(v: nat)
    ensures Number(Decimal(v)) == v
  {
    var s := Decimal(v);
    if v >= 10 {
      NumberOfDecimal(v / 10);
      assert s[..|s| - 1] == Decimal(v / 10);
    }
  }

  lemma NumberStep(s: string)
    requires s != [] && forall c :: c in s ==> IsDigit(c)
    ensures Number(s) == Number(s[..|s| - 1]) * 10 + DigitValue(s[|s| - 1])
  {
  }

  lemma NumberOfNothing()
    ensures Number([]) == 0
  {
  }

  lemma DecimalStep(n: nat, d: int)
    requires 0 <= d < 10
    ensures Decimal(n * 10 + d) == if n == 0 then [Digit(d)] else Decimal(n) + [Digit(d)]
  {
    assert (n * 10 + d) / 10 == n && (n * 10 + d) % 10 == d;
  }

  lemma {:induction false} PositiveNumber(s: string)
    requires s != [] && (forall c :: c in s ==> IsDigit(c)) && s[0] != '0'
    ensures Number(s) > 0
  {
    var front := s[..|s| - 1];
    if |s| > 1 {
      PositiveNumber(front);
    } else {
      assert Number(front) == 0 && DigitValue(s[0]) > 0;
    }
  }

  /** A run of digits without a leading zero is the decimal of the number it denotes. */
  lemma {:induction false} DecimalOfNumber(s: string)
    requires s != [] && (forall c :: c in s ==> IsDigit(c)) && (|s| > 1 ==> s[0] != '0')
    ensures Decimal(Number(s)) == s
  {
    hide Decimal, Number;
    var last := s[|s| - 1];
    var front := s[..|s| - 1];
    assert s == front + [last];
    NumberStep(s);
    DecimalStep(Number(front), DigitValue(last));
    if |s| > 1 {
      DecimalOfNumber(front);
      PositiveNumber(front);
    } else {
      assert front == [];
      NumberOfNothing();
    }
  }

  lemma {:induction false} DecimalHasNoLeadingZero(v: nat)
    ensures |Decimal(v)| > 1 ==> Decimal(v)[0] != '0'
    ensures v > 0 ==> Decimal(v)[0] != '0'
  {
    if v >= 10 {
      DecimalHasNoLeadingZero(v / 10);
    }
  }

  lemma {:induction false} DecimalLength(v: nat, digits: nat)
    requires digits > 0
    ensures |Decimal(v)| <= digits <==> v < Pow10(digits)
  {
    if digits == 1 {
      assert Pow10(1) == 10 * Pow10(0);
      if v >= 10 { assert |Decimal(v)| == |Decimal(v / 10)| + 1; }
    } else if v >= 10 {
      DecimalLength(v / 10, digits - 1);
      assert Pow10(digits) == 10 * Pow10(digits - 1);
    } else {
      assert Pow10(digits) == 10 * Pow10(digits - 1);
    }
  }
}
