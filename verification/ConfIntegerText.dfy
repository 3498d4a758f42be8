/** What texts of integers denote: signs, base prefixes, letter case and underscores. */
module ConfIntegerText {
  import opened Arith
  import opened Numerals
  import opened ConfInteger

  /** The whole text is read, and denotes v. */
  predicate ReadsAs(s: string, base: nat, signed: bool, v: int) {
    var l := LeadOf(s, base, signed);
    2 <= l.base <= 36 && HasDigits(s, l) && RunEnd(s, l.start, l.base) == |s| && Denoted(s, l) == v
  }

  predicate IsSign(sign: string, signed: bool) {
    sign == "" || sign == "+" || (sign == "-" && signed)
  }

  lemma {:induction false} NumeralStarts(n: nat, base: nat)
    requires 2 <= base <= 36
    ensures IsDigit(Numeral(n, base)[0], base) && (n > 0 ==> Numeral(n, base)[0] != '0')
    ensures Numeral(n, base)[0] != '-' && Numeral(n, base)[0] != '+' && Numeral(n, base)[0] != '_'
    ensures base == 10 ==> '0' <= Numeral(n, base)[0] <= '9'
    decreases n
  {
    if n < base {
      DigitsRead(n, base);
    } else {
      var q, r := Divide(n, base);
      NumeralStarts(q, base);
    }
  }

  /** Digits to the end of the text, from position a on, written as a numeral from b on. */
  lemma {:induction false} TailRead(s: string, a: nat, b: nat, n: nat, base: nat)
    requires 2 <= base <= 36 && a <= b <= |s| && s[b..] == Numeral(n, base)
    requires b == a || (b == a + 1 && s[a] == '0')
    ensures a < |s| && IsDigit(s[a], base) && RunEnd(s, a, base) == |s| && NumberIn(s, a, |s|, base) == n
  {
    assert s[b..|s|] == Numeral(n, base);
    NumeralRead(n, base, s, b);
    RunOfDigits(s, b, |s|, base);
    NumeralStarts(n, base);
    assert s[b] == Numeral(n, base)[0];
    if a < b {
      ZeroSkipped(s, a, |s|, base);
    }
  }

  lemma {:induction false} ZeroSkipped(s: string, a: nat, b: nat, base: nat)
    requires a + 1 <= b <= |s| && s[a] == '0'
    ensures NumberIn(s, a, b, base) == NumberIn(s, a + 1, b, base)
    decreases b
  {
    if a + 1 < b {
      ZeroSkipped(s, a, b - 1, base);
    }
  }

  /** A hexadecimal prefix counts under base 16, and under base 0, which leaves it to the text. */
  lemma {:induction false} HexRead(n: nat, sign: string, x: char, base: nat, signed: bool)
    requires IsSign(sign, signed) && (x == 'x' || x == 'X') && (base == 0 || base == 16)
    ensures ReadsAs(sign + (['0', x] + Numeral(n, 16)), base, signed, Signed(n, sign == "-"))
  {
    var s, i := sign + (['0', x] + Numeral(n, 16)), |sign|;
    assert s[i] == '0' && s[i + 1] == x;
    assert s[i + 2..] == Numeral(n, 16);
    TailRead(s, i + 2, i + 2, n, 16);
  }

  lemma {:induction false} OctalLead(s: string, sign: string, t: string, signed: bool)
    requires IsSign(sign, signed) && s == sign + ("0" + t) && t != "" && IsDigit(t[0], 8)
    ensures LeadOf(s, 0, signed) == Lead(sign == "-", |sign|, 8)
    ensures s[|sign|] == '0' && s[|sign| + 1..] == t
  {
    assert s[|sign|] == '0' && s[|sign| + 1] == t[0];
  }

  /** Under base 0, a leading zero makes a number octal. */
  lemma {:induction false} OctalRead(n: nat, sign: string, signed: bool)
    requires IsSign(sign, signed)
    ensures ReadsAs(sign + ("0" + Numeral(n, 8)), 0, signed, Signed(n, sign == "-"))
  {
    var s, i := sign + ("0" + Numeral(n, 8)), |sign|;
    NumeralStarts(n, 8);
    OctalLead(s, sign, Numeral(n, 8), signed);
    TailRead(s, i, i + 1, n, 8);
  }

  /** Other numbers are decimal under base 0. */
  lemma {:induction false} DecimalRead(n: nat, sign: string, signed: bool)
    requires IsSign(sign, signed)
    ensures ReadsAs(sign + Numeral(n, 10), 0, signed, Signed(n, sign == "-"))
  {
    var s, i := sign + Numeral(n, 10), |sign|;
    NumeralStarts(n, 10);
    assert s[i] == Numeral(n, 10)[0];
    assert s[i..] == Numeral(n, 10);
    if n == 0 {
      assert Numeral(n, 10) == "0" == Numeral(n, 8);
      TailRead(s, i, i, n, 8);
    } else {
      TailRead(s, i, i, n, 10);
      SecondChar(n, s, i);
    }
  }

  lemma {:induction false} SecondChar(n: nat, s: string, i: nat)
    requires n > 0 && i < |s| && s[i..] == Numeral(n, 10)
    ensures s[i] != '0'
  {
    NumeralStarts(n, 10);
    assert s[i] == Numeral(n, 10)[0];
  }

  /** In a base given by the caller, a numeral with any sign. */
  lemma {:induction false} BaseRead(n: nat, sign: string, base: nat, signed: bool)
    requires IsSign(sign, signed) && 2 <= base <= 36
    ensures ReadsAs(sign + Numeral(n, base), base, signed, Signed(n, sign == "-"))
  {
    var s, i := sign + Numeral(n, base), |sign|;
    NumeralStarts(n, base);
    assert s[i] == Numeral(n, base)[0];
    assert s[i..] == Numeral(n, base);
    if n == 0 {
      assert |s| == i + 1;
    }
    TailRead(s, i, i, n, base);
  }

  // ----- letter case and underscores

  /** The digits that a text writes, underscores left out. */
  function DigitsOf(t: string, base: nat): seq<nat> {
    if t == "" then []
    else
      var n := |t| - 1;
      DigitsOf(t[..n], base) + if t[n] == '_' then [] else [DigitOf(t[n], base)]
  }

  function Positional(ds: seq<nat>, base: nat): nat {
    if ds == [] then 0 else Positional(ds[..|ds| - 1], base) * base + ds[|ds| - 1]
  }

  lemma {:induction false} OneMore(ds: seq<nat>, d: nat, base: nat)
    ensures Positional(ds + [d], base) == Positional(ds, base) * base + d && ds + [] == ds
  {
    assert (ds + [d])[..|ds|] == ds;
  }

  /** A text denotes what its digits denote, however they are spelled and set apart. */
  lemma {:induction false} SpellingIgnored(s: string, a: nat, b: nat, base: nat)
    requires a <= b <= |s|
    ensures NumberIn(s, a, b, base) == Positional(DigitsOf(s[a..b], base), base)
    decreases b
  {
    if a < b {
      SpellingIgnored(s, a, b - 1, base);
      var t := s[a..b];
      assert t[..|t| - 1] == s[a..b - 1] && t[|t| - 1] == s[b - 1];
      OneMore(DigitsOf(s[a..b - 1], base), DigitOf(s[b - 1], base), base);
    }
  }

  /** Letters of either case are the same digits, and a digit sign is the digit it shows. */
  lemma {:induction false} CaseIgnored(d: nat, base: nat)
    requires 10 <= d < base <= 36
    ensures DigitOf(('A' as int + d - 10) as char, base) == d == DigitOf(('a' as int + d - 10) as char, base)
  {
  }

  predicate InRun(s: string, p: nat, base: nat)
    requires p < |s|
  {
    IsDigit(s[p], base) || Separates(s, p)
  }

  /** A text is read whole exactly if it has only digits and single underscores that
      something follows. */
  lemma {:induction false} ReadWholeExactly(s: string, i: nat, base: nat)
    requires i <= |s|
    ensures RunEnd(s, i, base) == |s| <==> forall p :: i <= p < |s| ==> InRun(s, p, base)
    decreases |s| - i
  {
    if i < |s| {
      ReadWholeExactly(s, i + 1, base);
      if !InRun(s, i, base) {
        assert RunEnd(s, i, base) == i;
      } else {
        assert RunEnd(s, i, base) == RunEnd(s, i + 1, base);
      }
    }
  }
}
