/** Decimal numerals, as str(n) writes them. */
module Decimals {
  function Digit(d: nat): char
    requires d < 10
  {
    "0123456789"[d]
  }

  function Numeral(n: nat): string {
    if n < 10 then [Digit(n)] else Numeral(n / 10) + [Digit(n % 10)]
  }

  lemma DigitsDiffer(a: nat, b: nat)
    requires a < 10 && b < 10 && Digit(a) == Digit(b)
    ensures a == b
  {
  }

  lemma {:induction false} NumeralShape(n: nat)
    ensures Numeral(n) != "" && forall c :: c in Numeral(n) ==> '0' <= c <= '9'
  {
    if n >= 10 {
      NumeralShape(n / 10);
    }
  }

  lemma {:induction false} NumeralInjective(a: nat, b: nat)
    requires Numeral(a) == Numeral(b)
    ensures a == b
  {
    var s := Numeral(a);
    NumeralShape(a / 10);
    NumeralShape(b / 10);
    assert s[|s| - 1] == Digit(a % 10) && s[|s| - 1] == Digit(b % 10);
    DigitsDiffer(a % 10, b % 10);
    if a >= 10 && b >= 10 {
      assert s[..|s| - 1] == Numeral(a / 10) && s[..|s| - 1] == Numeral(b / 10);
      NumeralInjective(a / 10, b / 10);
    } else {
      assert |s| == 1;
    }
  }
}
