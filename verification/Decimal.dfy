/** Decimal numerals and the numbers they denote. */
module Decimal {
  import opened Bytes

  // ----- writing -----

  function Digit(n: int): (c: byte)
    requires 0 <= n < 10
    ensures IsDigit(c)
  {
    Chr('0' as int + n)
  }

  /** The decimal numeral of `n`, most significant digit first. */
  function Numeral(n: nat): (r: bytes)
    ensures r != []
  {
    if n < 10 then [Digit(n)] else Numeral(n / 10) + [Digit(n % 10)]
  }

  function SignedNumeral(n: int): bytes {
    if n < 0 then "-" + Numeral(-n) else Numeral(n)
  }

  // ----- meaning -----

  /** The number a digit string denotes. */
  function Meaning(t: bytes): nat
    requires forall k :: 0 <= k < |t| ==> IsDigit(t[k])
  {
    if t == [] then 0 else Meaning(t[..|t| - 1]) * 10 + DigitValue(t[|t| - 1])
  }

  function DigitValue(c: byte): (d: int)
    requires IsDigit(c)
    ensures 0 <= d < 10
  {
    c as int - '0' as int
  }

  predicate AllDigits(t: bytes) {
    forall k :: 0 <= k < |t| ==> IsDigit(t[k])
  }

  lemma {:induction false} NumeralMeaning(n: nat)
    ensures AllDigits(Numeral(n)) && Meaning(Numeral(n)) == n
  {
    if n >= 10 {
      NumeralMeaning(n / 10);
      assert Numeral(n)[..|Numeral(n)| - 1] == Numeral(n / 10);
    } else {
      assert [Digit(n)][..0] == [];
    }
  }
}
