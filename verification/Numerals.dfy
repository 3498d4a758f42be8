/** Writing a natural number in a base from 2 to 36, without leading zeros. */
module Numerals {
  import opened Arith

  function DigitChar(d: nat): char
    requires d < 36
  {
    if d < 10 then ('0' as int + d) as char else ('a' as int + d - 10) as char
  }

  function Numeral(n: nat, base: nat): (t: string)
    requires 2 <= base <= 36
    ensures t != ""
  {
    QuotientLess(n, base);
    if n < base then [DigitChar(n)] else Numeral(n / base, base) + [DigitChar(n % base)]
  }
}
