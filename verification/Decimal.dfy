/** Natural numbers written in decimal, as the suffixes of generated names. */
module Decimal {

  function Digit(d: nat): char
    requires d < 10
  {
    ['0', '1', '2', '3', '4', '5', '6', '7', '8', '9'][d]
  }

  function Dec(n: nat): (text: string)
    ensures text != [] && forall c <- text :: '0' <= c <= '9'
    ensures n < 10 ==> |text| == 1
    ensures n < 100 ==> |text| <= 2
    ensures n < 1000 ==> |text| <= 3
    ensures n < 10000 ==> |text| <= 4
  {
    if n < 10 then [Digit(n)] else Dec(n / 10) + [Digit(n % 10)]
  }

  lemma DigitIsInjective(c: nat, d: nat)
    requires c < 10 && d < 10 && Digit(c) == Digit(d)
    ensures c == d
  {
  }

  lemma DecEnds(n: nat)
    ensures var last := |Dec(n)| - 1;
      Dec(n)[last] == Digit(n % 10) && (n >= 10 ==> Dec(n)[..last] == Dec(n / 10)) && (n < 10 <==> last == 0)
  {
  }

  /** The number that a text of digits stands for. */
  function Number(digits: string): nat {
    if digits == "" then 0
    else
      var last := digits[|digits| - 1];
      10 * Number(digits[..|digits| - 1]) + if '0' <= last <= '9' then (last - '0') as nat else 0
  }

  /** A number is written in decimal, without leading zeros. */
  lemma {:induction false} NumberOfDec(n: nat)
    ensures Number(Dec(n)) == n && (n > 0 ==> Dec(n)[0] != '0')
  {
    if n >= 10 {
      NumberOfDec(n / 10);
      assert Dec(n)[..|Dec(n)| - 1] == Dec(n / 10);
    } else {
      assert Dec(n)[..0] == "";
    }
  }

  /** No two numbers are written alike. */
  lemma {:induction false} DecIsInjective(m: nat, n: nat)
    requires Dec(m) == Dec(n)
    ensures m == n
  {
    hide Dec, Digit;
    DecEnds(m);
    DecEnds(n);
    DigitIsInjective(m % 10, n % 10);
    if m >= 10 {
      DecIsInjective(m / 10, n / 10);
    }
  }
}
