/** Decimal texts of numbers, and the larger of two numbers. */
module Numerals {

  function Max(a: nat, b: nat): nat {
    if a < b then b else a
  }

  function Digit(d: nat): char
    requires d < 10
  {
    "0123456789"[d]
  }

  function Decimal(n: nat): string {
    if n < 10 then [Digit(n)] else Decimal(n / 10) + [Digit(n % 10)]
  }

  lemma {:induction false} DigitInjective(c: nat, d: nat)
    requires c < 10 && d < 10 && Digit(c) == Digit(d)
    ensures c == d
  {
    assert "0123456789"[c] == "0123456789"[d];
  }

  lemma {:induction false} DecimalIsPlain(n: nat)
    ensures Decimal(n) != [] && Decimal(n)[0] != '-'
  {
    if n >= 10 {
      DecimalIsPlain(n / 10);
    }
  }

  /** Different numbers have different texts. */
  lemma {:induction false} DecimalInjective(m: nat, n: nat)
    requires Decimal(m) == Decimal(n)
    ensures m == n
  {
    DecimalIsPlain(m / 10);
    DecimalIsPlain(n / 10);
    if m < 10 && n < 10 {
      assert Decimal(m)[0] == Decimal(n)[0];
      DigitInjective(m, n);
    } else if m >= 10 && n >= 10 {
      var s, t := Decimal(m / 10), Decimal(n / 10);
      assert |s| == |t| && s == Decimal(m)[..|s|] && t == Decimal(n)[..|t|];
      assert Decimal(m)[|s|] == Decimal(n)[|t|];
      DigitInjective(m % 10, n % 10);
      DecimalInjective(m / 10, n / 10);
    }
  }
}
