/** Integers and their texts. */
module Numerals {
  import opened Wrappers
  import opened Helpers

  predicate IsNumber(c: char) {
    '0' <= c <= '9'
  }

  predicate AllDigits(s: string) {
    forall c :: c in s ==> IsNumber(c)
  }

  function Decimal(n: nat): (s: string)
    ensures s != "" && AllDigits(s)
  {
    var digit := '0' + (n % 10) as char;
    if n < 10 then [digit] else Decimal(n / 10) + [digit]
  }

  function ToText(n: int): string {
    if n < 0 then "-" + Decimal(-n) else Decimal(n)
  }

  function DigitsValue(s: string): nat
    requires AllDigits(s)
  {
    if s == "" then 0
    else
      assert IsNumber(s[|s| - 1]);
      10 * DigitsValue(Front(s)) + (Last(s) as int - '0' as int)
  }

  function Parse(s: string): Result<int> {
    if s != "" && AllDigits(s) then Ok(DigitsValue(s))
    else if |s| >= 2 && s[0] == '-' && AllDigits(s[1..]) then Ok(-(DigitsValue(s[1..]) as int))
    else Err
  }

  lemma {:induction false} DecimalValue(n: nat)
    ensures DigitsValue(Decimal(n)) == n
  {
    var s, digit := Decimal(n), '0' + (n % 10) as char;
    assert Last(s) == digit;
    if n >= 10 {
      DecimalValue(n / 10);
      assert Front(s) == Decimal(n / 10);
    } else {
      assert Front(s) == "";
    }
  }

  /** Reading a number that was written. */
  lemma ParseToText(n: int)
    ensures Parse(ToText(n)) == Ok(n)
  {
    if n < 0 {
      DecimalValue(-n);
      assert ToText(n)[1..] == Decimal(-n);
      assert !IsNumber(ToText(n)[0]);
    } else {
      DecimalValue(n);
    }
  }

  function Pow10(n: nat): nat {
    if n == 0 then 1 else 10 * Pow10(n - 1)
  }

  /** Digits count by their place: what stands before n digits counts 10 to the n times as much. */
  lemma {:induction false} PlacesCount(a: string, b: string)
    requires AllDigits(a) && AllDigits(b)
    ensures DigitsValue(a + b) == DigitsValue(a) * Pow10(|b|) + DigitsValue(b)
    ensures |b| == 1 ==> DigitsValue(b) == b[0] as int - '0' as int
    decreases |b|
  {
    if b == "" {
      assert a + b == a;
    } else {
      assert Front(a + b) == a + Front(b) && Last(a + b) == Last(b);
      PlacesCount(a, Front(b));
      assert |b| == 1 ==> Front(b) == "";
      TenTimes(DigitsValue(a), Pow10(|b| - 1));
    }
  }

  lemma TenTimes(a: nat, p: nat)
    ensures 10 * (a * p) == a * (10 * p)
  {
  }
}
