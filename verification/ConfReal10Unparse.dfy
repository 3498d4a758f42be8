/** Printing a scaled integer as a decimal number, and reading it back. */
module ConfReal10Unparse {
  import opened Arith
  import opened Numerals
  import opened ConfInteger
  import opened ConfIntegerText
  import opened Decimal
  import opened ConfReal10

  /** n in exactly d digits, with leading zeros. */
  function Padded(n: nat, d: nat): (t: string)
    requires n < Pow10(d)
    ensures |t| == d
  {
    if d == 0 then ""
    else
      var q, r := n / 10, n % 10;
      Padded(q, d - 1) + [DigitChar(r)]
  }

  function Stripped(t: string): (r: string)
    ensures |r| <= |t| && r == t[..|r|]
    ensures forall i :: |r| <= i < |t| ==> t[i] == '0'
    ensures r != "" ==> r[|r| - 1] != '0'
  {
    if t != "" && t[|t| - 1] == '0' then Stripped(t[..|t| - 1]) else t
  }

  function Unparsed(x: nat, d: nat): string {
    QuotientNat(x, Pow10(d));
    var whole, frac := x / Pow10(d), x % Pow10(d);
    if frac == 0 then Numeral(whole, 10) else Numeral(whole, 10) + "." + Stripped(Padded(frac, d))
  }

  function UnparsedSigned(x: int, d: nat): string {
    if x < 0 then "-" + Unparsed(-x, d) else Unparsed(x, d)
  }

  method Unparse(x: nat, d: nat) returns (s: string)
    requires x < 0x1_0000_0000 && d <= 9
    ensures s == Unparsed(x, d)
  {
    TableIsPow10(d);
    var one := EXP10_VAL[d];
    QuotientNat(x, one);
    var whole := x / one;
    var frac := x - whole * one;
    assert frac == x % one;
    if frac == 0 {
      return Numeral(whole, 10);
    }
    NonzeroKeepsDigits(frac, d);
    s := DropZeros(Numeral(whole, 10) + ".", Padded(frac, d));
  }

  method DropZeros(head: string, tail: string) returns (s: string)
    requires Stripped(tail) != ""
    ensures s == head + Stripped(tail)
  {
    s := head + tail;
    ghost var k := |tail|;
    assert tail[..k] == tail;
    while s[|s| - 1] == '0'
      invariant 0 < k <= |tail| && s == head + tail[..k] && Stripped(tail[..k]) == Stripped(tail)
      decreases k
    {
      assert tail[..k][..k - 1] == tail[..k - 1];
      k := k - 1;
      s := s[..|s| - 1];
      assert Stripped(tail[..k]) != "";
    }
  }

  lemma {:induction false} ZerosPad(n: nat, d: nat)
    requires n < Pow10(d) && forall i :: 0 <= i < d ==> Padded(n, d)[i] == '0'
    ensures n == 0
    decreases d
  {
    if d > 0 {
      assert Padded(n, d)[d - 1] == DigitChar(n % 10);
      var u := Padded(n / 10, d - 1);
      forall i | 0 <= i < d - 1
        ensures u[i] == '0'
      {
        assert Padded(n, d)[i] == u[i];
      }
      ZerosPad(n / 10, d - 1);
    }
  }

  lemma NonzeroKeepsDigits(n: nat, d: nat)
    requires 0 < n < Pow10(d)
    ensures Stripped(Padded(n, d)) != ""
  {
    if Stripped(Padded(n, d)) == "" {
      ZerosPad(n, d);
    }
  }

  /** The shortest form: no needless zero in front, a point exactly if the fraction is not zero,
      then at most d digits, the last of which is not zero. */
  lemma PrintedShortest(x: nat, d: nat) returns (ints: string, fracs: string)
    ensures Unparsed(x, d) == ints + (if fracs == "" then "" else "." + fracs)
    ensures ints != "" && (ints[0] == '0' ==> ints == "0") && forall i :: 0 <= i < |ints| ==> IsDecimal(ints[i])
    ensures |fracs| <= d && (fracs == "" <==> x % Pow10(d) == 0) && forall i :: 0 <= i < |fracs| ==> IsDecimal(fracs[i])
    ensures fracs != "" ==> fracs[|fracs| - 1] != '0'
  {
    QuotientNat(x, Pow10(d));
    var whole, frac := x / Pow10(d), x % Pow10(d);
    ints, fracs := Numeral(whole, 10), if frac == 0 then "" else Stripped(Padded(frac, d));
    NumeralStarts(whole, 10);
    NumeralDigits(whole);
    if frac > 0 {
      NonzeroKeepsDigits(frac, d);
      PaddedDigits(frac, d);
      forall i | 0 <= i < |fracs|
        ensures IsDecimal(fracs[i])
      {
        assert fracs[i] == Padded(frac, d)[i];
      }
    } else {
      assert ints + "" == ints;
    }
  }

  // ----- reading back

  lemma {:induction false} PaddedDigits(n: nat, d: nat)
    requires n < Pow10(d)
    ensures forall i :: 0 <= i < d ==> IsDecimal(Padded(n, d)[i])
    decreases d
  {
    if d > 0 {
      PaddedDigits(n / 10, d - 1);
    }
  }

  lemma {:induction false} NumeralDigits(n: nat)
    ensures forall i :: 0 <= i < |Numeral(n, 10)| ==> IsDecimal(Numeral(n, 10)[i])
    decreases n
  {
    if n >= 10 {
      NumeralDigits(n / 10);
    }
  }

  predicate Shows(t: string, a: nat, u: string) {
    forall i :: 0 <= i < |u| ==> CharAt(t, a + i) == u[i]
  }

  /** Zeros stripped from the end are read as zeros again. */
  lemma {:induction false} PaddedRead(t: string, a: nat, n: nat, d: nat)
    requires n < Pow10(d)
    requires Shows(t, a, Padded(n, d))
    ensures Span(t, a, a + d) == n
    decreases d
  {
    if d > 0 {
      var q, r := Divide(n, 10);
      var u := Padded(q, d - 1);
      assert Padded(n, d) == u + [DigitChar(r)];
      forall i | 0 <= i < |u|
        ensures CharAt(t, a + i) == u[i]
      {
        assert Padded(n, d)[i] == u[i];
      }
      PaddedRead(t, a, q, d - 1);
      assert CharAt(t, a + (d - 1)) == Padded(n, d)[d - 1] == DigitChar(r);
      DigitsRead(r, 10);
    }
  }

  lemma {:induction false} RunCovers(s: string, start: nat, i: nat, j: nat)
    requires start <= i <= j <= |s| && forall p :: i <= p < j ==> IsDecimal(s[p])
    requires j == |s| || s[j] == '.'
    ensures RunOfDigitsEnd(s, start, i) == j
    decreases j - i
  {
    if i < j {
      RunCovers(s, start, i + 1, j);
    }
  }

  /** The text of a whole number, alone or with a point and a nonempty fraction. */
  lemma LexWritten(ints: string, fracs: string)
    requires ints != "" && forall i :: 0 <= i < |ints| ==> IsDecimal(ints[i])
    requires forall i :: 0 <= i < |fracs| ==> IsDecimal(fracs[i])
    ensures Lex(ints + "." + fracs) == Number(ints, fracs, 0)
    ensures Lex(ints) == Number(ints, "", 0)
  {
    RunCovers(ints, 0, 0, |ints|);
    assert ints[0..|ints|] == ints;
    var s, j := ints + "." + fracs, |ints|;
    forall p | 0 <= p < j
      ensures IsDecimal(s[p])
    {
      assert s[p] == ints[p];
    }
    assert s[j] == '.';
    RunCovers(s, 0, 0, j);
    forall p | j + 1 <= p < |s|
      ensures IsDecimal(s[p])
    {
      assert s[p] == fracs[p - j - 1];
    }
    RunCovers(s, j + 1, j + 1, |s|);
    assert s[0..j] == ints && s[j + 1..|s|] == fracs;
    assert s[0] == ints[0];
  }

  /** The kept value of a whole number and the digits of a fraction, without trailing zeros. */
  lemma WrittenScaled(whole: nat, frac: nat, d: nat)
    requires frac < Pow10(d)
    ensures Scaled(Numeral(whole, 10) + Stripped(Padded(frac, d)), |Numeral(whole, 10)|, d) == whole * Pow10(d) + frac
  {
    PaddedScaled(whole, frac, d, Numeral(whole, 10), Padded(frac, d), Stripped(Padded(frac, d)));
  }

  lemma PaddedScaled(whole: nat, frac: nat, d: nat, ints: string, padded: string, kept: string)
    requires frac < Pow10(d) && ints == Numeral(whole, 10) && padded == Padded(frac, d)
    requires |kept| <= |padded| && kept == padded[..|kept|]
    requires forall i :: |kept| <= i < |padded| ==> padded[i] == '0'
    ensures Scaled(ints + kept, |ints|, d) == whole * Pow10(d) + frac
  {
    WholeRead(whole, ints, kept);
    StrippedShows(ints, padded, kept);
    PaddedRead(ints + kept, |ints|, frac, d);
    ScaledIs(ints + kept, |ints|, d, whole, frac);
  }

  lemma ScaledIs(t: string, point: nat, d: nat, whole: nat, frac: nat)
    requires IntPart(t, point) == whole && Span(t, point, point + d) == frac && CharAt(t, point + d) == '0'
    ensures Scaled(t, point, d) == whole * Pow10(d) + frac
  {
  }

  lemma WholeRead(whole: nat, ints: string, fracs: string)
    requires ints == Numeral(whole, 10)
    ensures IntPart(ints + fracs, |ints|) == whole
  {
    var t := ints + fracs;
    assert t[0..|ints|] == ints;
    NumeralRead(whole, 10, t, 0);
    SpanIsNumber(t, 0, |ints|);
  }

  lemma StrippedShows(ints: string, padded: string, kept: string)
    requires |kept| <= |padded| && kept == padded[..|kept|]
    requires forall i :: |kept| <= i < |padded| ==> padded[i] == '0'
    ensures Shows(ints + kept, |ints|, padded)
    ensures CharAt(ints + kept, |ints| + |padded|) == '0'
  {
    forall i | 0 <= i < |padded|
      ensures CharAt(ints + kept, |ints| + i) == padded[i]
    {
      if i < |kept| {
        assert (ints + kept)[|ints| + i] == kept[i];
      }
    }
  }

  lemma {:induction false} NumeralLength(n: nat, k: nat)
    requires k > 0 && n < Pow10(k)
    ensures |Numeral(n, 10)| <= k
    decreases k
  {
    if n >= 10 {
      var q, r := Divide(n, 10);
      NumeralLength(q, k - 1);
    }
  }

  lemma {:induction false} ZeroStripped(d: nat)
    ensures Stripped(Padded(0, d)) == ""
  {
    if d > 0 {
      ZeroStripped(d - 1);
      assert Padded(0, d)[..d - 1] == Padded(0, d - 1);
    }
  }

  lemma WholeSize(x: nat, whole: nat)
    requires whole <= x < 0x1_0000_0000
    ensures |Numeral(whole, 10)| <= 10
  {
    TableIsPow10(9);
    assert Pow10(10) == 10 * Pow10(9);
    NumeralLength(whole, 10);
  }

  lemma UnparsedLex(whole: nat, frac: nat, d: nat)
    requires frac < Pow10(d)
    ensures Lex(if frac == 0 then Numeral(whole, 10) else Numeral(whole, 10) + "." + Stripped(Padded(frac, d)))
         == Number(Numeral(whole, 10), Stripped(Padded(frac, d)), 0)
  {
    var ints, fracs := Numeral(whole, 10), Stripped(Padded(frac, d));
    NumeralDigits(whole);
    PaddedDigits(frac, d);
    forall i | 0 <= i < |fracs|
      ensures IsDecimal(fracs[i])
    {
      assert fracs[i] == Padded(frac, d)[i];
    }
    LexWritten(ints, fracs);
    if frac == 0 {
      ZeroStripped(d);
    }
  }

  /** What the parser makes of a text depends on its two digit strings only. */
  lemma PartsOfLexed(s: string, ints: string, fracs: string, d: nat, scaled: nat)
    requires s != "" && d <= 9 && |ints| <= 10 && Lex(s) == Number(ints, fracs, 0)
    requires Scaled(ints + fracs, |ints|, d) == scaled
    ensures PartsOf(s, d, 0) == Saturated(scaled, d)
  {
    assert PointFits(|ints|, 0, 0, d);
  }

  lemma UnparsedIs(x: nat, d: nat, whole: nat, frac: nat)
    requires whole == x / Pow10(d) && frac == x % Pow10(d) && frac < Pow10(d)
    ensures Unparsed(x, d) ==
            if frac == 0 then Numeral(whole, 10) else Numeral(whole, 10) + "." + Stripped(Padded(frac, d))
    ensures Unparsed(x, d) != ""
  {
  }

  lemma UnparsedParts(x: nat, d: nat)
    requires x < 0x1_0000_0000 && d <= 9
    ensures PartsOf(Unparsed(x, d), d, 0) == Saturated(x, d)
  {
    Quotient(x, Pow10(d));
    WholeAndFraction(x, d, x / Pow10(d), x % Pow10(d));
  }

  lemma WholeAndFraction(x: nat, d: nat, whole: nat, frac: nat)
    requires x < 0x1_0000_0000 && d <= 9 && whole <= x && frac < Pow10(d)
    requires whole == x / Pow10(d) && frac == x % Pow10(d) && x == whole * Pow10(d) + frac
    ensures PartsOf(Unparsed(x, d), d, 0) == Saturated(x, d)
  {
    WholeSize(x, whole);
    UnparsedIs(x, d, whole, frac);
    UnparsedLex(whole, frac, d);
    WrittenScaled(whole, frac, d);
    PartsOfLexed(Unparsed(x, d), Numeral(whole, 10), Stripped(Padded(frac, d)), d, x);
  }

  /** Round trip: a printed 32-bit integer is read back exactly, without overflow. */
  lemma UnsignedRoundTrip(x: nat, d: nat)
    requires x < 0x1_0000_0000 && d <= 9
    ensures ScalarOf(Unparsed(x, d), d, 0) == Value(x, false)
  {
    UnparsedParts(x, d);
    ScalarCorrect(Unparsed(x, d), d, 0, x);
  }

  lemma UnparsedStarts(x: nat, d: nat)
    ensures Unparsed(x, d) != "" && IsDecimal(Unparsed(x, d)[0])
  {
    QuotientNat(x, Pow10(d));
    NumeralDigits(x / Pow10(d));
  }

  /** The same for signed integers, apart from the least one, whose negation overflows. */
  lemma SignedRoundTrip(x: int, d: nat)
    requires -0x8000_0000 < x <= 0x7FFF_FFFF && d <= 9
    ensures SignedOf(UnparsedSigned(x, d), d) == Value(x, false)
  {
    var n := if x < 0 then -x else x;
    UnsignedRoundTrip(n, d);
    UnparsedStarts(n, d);
    SignRead(Unparsed(n, d), d);
  }

  lemma SignRead(s: string, d: nat)
    requires s != "" && IsDecimal(s[0])
    ensures SignedOf("-" + s, d) == WithSign(ScalarOf(s, d, 0), true)
    ensures SignedOf(s, d) == WithSign(ScalarOf(s, d, 0), false)
  {
    assert ("-" + s)[1..] == s;
    assert ("-" + s)[1] == s[0];
  }
}
