/** Decimal numerals: reading with overflow checks, reading with saturation, printing. */
module Decimal {
  import opened Wrappers

  predicate IsDigit(c: char) {
    '0' <= c <= '9'
  }

  predicate AllDigits(s: string) {
    forall i :: 0 <= i < |s| ==> IsDigit(s[i])
  }

  function DigitValue(c: char): (d: nat)
    requires IsDigit(c)
    ensures d <= 9
  {
    c as int - '0' as int
  }

  function DigitChar(d: nat): (c: char)
    requires d <= 9
    ensures IsDigit(c) && DigitValue(c) == d
  {
    ('0' as int + d) as char
  }

  /** The number a digit string denotes; unbounded, leading zeros allowed. */
  function Value(s: string): nat
    requires AllDigits(s)
  {
    if s == [] then 0 else Value(s[..|s| - 1]) * 10 + DigitValue(s[|s| - 1])
  }

  /** `to_string` of an unsigned integer. */
  function Print(n: nat): (s: string)
    ensures s != [] && AllDigits(s)
  {
    if n < 10 then [DigitChar(n)] else Print(n / 10) + [DigitChar(n % 10)]
  }

  lemma {:induction false} ValueOfPrint(n: nat)
    ensures Value(Print(n)) == n
  {
    if n < 10 {
      var s := [DigitChar(n)];
      assert s[..0] == [];
    } else {
      ValueOfPrint(n / 10);
      var s := Print(n);
      assert s[..|s| - 1] == Print(n / 10);
    }
  }

  lemma PrintInjective(a: nat, b: nat)
    requires Print(a) == Print(b)
    ensures a == b
  {
    ValueOfPrint(a);
    ValueOfPrint(b);
  }

  function Pow10(k: nat): (p: nat)
    ensures p >= 1
  {
    if k == 0 then 1 else 10 * Pow10(k - 1)
  }

  lemma {:induction false} PrintLength(n: nat, k: nat)
    requires k >= 1 && n < Pow10(k)
    ensures |Print(n)| <= k
  {
    if n >= 10 {
      assert k > 1;
      PrintLength(n / 10, k - 1);
    }
  }

  /** Every numeral of a 64-bit number has at most twenty digits. */
  lemma PrintLength64(n: nat)
    requires n < 0x1_0000_0000_0000_0000
    ensures |Print(n)| <= 20
  {
    assert Pow10(5) == 100000;
    assert Pow10(10) == 100000 * 100000 by {
      assert Pow10(6) == 1000000 && Pow10(8) == 100000000;
    }
    assert Pow10(15) == 100000 * 100000 * 100000 by {
      assert Pow10(12) == 1000000000000 && Pow10(14) == 100000000000000;
    }
    assert Pow10(20) == 100000 * 100000 * 100000 * 100000 by {
      assert Pow10(17) == 100000000000000000 && Pow10(19) == 10000000000000000000;
    }
    PrintLength(n, 20);
  }

  /** Reading with a check at every multiplication and addition, as `parse::<uN>` does. */
  function Checked(s: string, max: nat): (r: Option<nat>)
    requires AllDigits(s)
    ensures r == if Value(s) <= max then Some(Value(s)) else None
  {
    if s == [] then Some(0)
    else
      match Checked(s[..|s| - 1], max)
      case None => None
      case Some(n) =>
        if n * 10 > max then None
        else if n * 10 + DigitValue(s[|s| - 1]) > max then None
        else Some(n * 10 + DigitValue(s[|s| - 1]))
  }

  function Min(a: nat, b: nat): nat {
    if a <= b then a else b
  }

  /** `saturating_mul(10)` then `saturating_add` at every digit, from the left. */
  function Saturating(s: string, max: nat): (r: nat)
    requires AllDigits(s)
    ensures r == Min(Value(s), max)
  {
    if s == [] then 0
    else
      var n := Saturating(s[..|s| - 1], max);
      Min(Min(n * 10, max) + DigitValue(s[|s| - 1]), max)
  }
}
