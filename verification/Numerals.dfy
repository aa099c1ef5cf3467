/** Natural numbers in decimal, as JavaScript prints them. */
module Numerals {
  function Decimal(n: nat): string {
    if n < 10 then ['0' + n as char] else Decimal(n / 10) + ['0' + (n % 10) as char]
  }

  predicate IsDigit(c: char) {
    '0' <= c <= '9'
  }

  predicate AllDigits(s: string) {
    forall i :: 0 <= i < |s| ==> IsDigit(s[i])
  }

  function Value(s: string): nat
    requires AllDigits(s)
  {
    if s == "" then 0 else 10 * Value(s[..|s| - 1]) + (s[|s| - 1] - '0') as nat
  }

  lemma {:induction false} DecimalShape(n: nat)
    ensures Decimal(n) != "" && AllDigits(Decimal(n))
    ensures n < 1000 ==> |Decimal(n)| <= 3
  {
    if n >= 10 { DecimalShape(n / 10); }
    if 100 <= n { assert n < 1000 ==> n / 10 < 100 && (n / 10) / 10 < 10; }
  }

  /** A number can be read back. */
  lemma {:induction false} ValueOfDecimal(n: nat)
    ensures AllDigits(Decimal(n)) && Value(Decimal(n)) == n
  {
    DecimalShape(n);
    var s := Decimal(n);
    if n >= 10 {
      ValueOfDecimal(n / 10);
      assert s[..|s| - 1] == Decimal(n / 10) && s[|s| - 1] == '0' + (n % 10) as char;
    } else {
      assert s[..0] == "" && s[0] == '0' + n as char;
    }
  }

  lemma DecimalInjective(m: nat, n: nat)
    requires Decimal(m) == Decimal(n)
    ensures m == n
  {
    ValueOfDecimal(m);
    ValueOfDecimal(n);
  }
}
