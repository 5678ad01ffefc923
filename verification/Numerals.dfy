/** Decimal numerals, shared by the models that read numbers. */
module Numerals {

  predicate IsDigit(c: char) {
    '0' <= c <= '9'
  }

  predicate AllDigits(s: string) {
    forall i :: 0 <= i < |s| ==> IsDigit(s[i])
  }

  function DigitValue(s: string): nat
    requires AllDigits(s)
  {
    if s == [] then 0 else DigitValue(s[..|s| - 1]) * 10 + (s[|s| - 1] as int - '0' as int)
  }

  /** `QString::number`. */
  function Number(n: nat): (s: string)
    ensures AllDigits(s) && s != [] && DigitValue(s) == n
    ensures if n == 0 then s == "0" else s[0] != '0'
  {
    if n < 10 then
      assert DigitValue([]) == 0;
      [(n + '0' as int) as char]
    else
      var s := Number(n / 10) + [(n % 10 + '0' as int) as char];
      assert s[..|s| - 1] == Number(n / 10);
      s
  }
}
