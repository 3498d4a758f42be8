/** Digit texts read as decimal numbers with a movable point, and their rounding. */
module Decimal {
  import opened Arith
  import opened ConfInteger

  function Pow10(k: nat): (p: nat)
    ensures p >= 1
  {
    if k == 0 then 1 else 10 * Pow10(k - 1)
  }

  lemma {:induction false} Pow10Add(a: nat, b: nat)
    ensures Pow10(a + b) == Pow10(a) * Pow10(b)
  {
    if a > 0 {
      Pow10Add(a - 1, b);
      Times10(Pow10(a - 1), Pow10(b));
    }
  }

  lemma Times10(a: nat, b: nat)
    ensures 10 * a * b == 10 * (a * b)
  {
  }

  // ----- reading positions of a text

  /** Only digits and underscores. */
  predicate DigitText(t: string) {
    forall i :: 0 <= i < |t| ==> IsDigit(t[i], 10) || t[i] == '_'
  }

  /** The character at a position; before and after the text there are zeros. */
  function CharAt(t: string, p: int): char {
    if 0 <= p < |t| then t[p] else '0'
  }

  /** The number written at the positions from a up to b, underscores skipped. */
  function Span(t: string, a: int, b: int): nat
    requires a <= b
    decreases b - a
  {
    if a == b then 0
    else if CharAt(t, b - 1) == '_' then Span(t, a, b - 1)
    else Span(t, a, b - 1) * 10 + DigitOf(CharAt(t, b - 1), 10)
  }

  /** How many of those positions hold digits. */
  function Places(t: string, a: int, b: int): nat
    requires a <= b
    decreases b - a
  {
    if a == b then 0 else Places(t, a, b - 1) + (if CharAt(t, b - 1) == '_' then 0 else 1)
  }

  predicate NoUnderscore(t: string, a: int, b: int) {
    forall p: int :: a <= p < b ==> CharAt(t, p) != '_'
  }

  lemma CharIsDigit(t: string, p: int)
    requires DigitText(t) && CharAt(t, p) != '_'
    ensures DigitOf(CharAt(t, p), 10) <= 9
  {
  }

  lemma {:induction false} SpanBelow(t: string, a: int, b: int)
    requires a <= b && DigitText(t)
    ensures Span(t, a, b) < Pow10(Places(t, a, b))
    decreases b - a
  {
    if a < b {
      SpanBelow(t, a, b - 1);
      if CharAt(t, b - 1) != '_' {
        CharIsDigit(t, b - 1);
      }
    }
  }

  lemma {:induction false} PlacesBound(t: string, a: int, b: int)
    requires a <= b
    ensures Places(t, a, b) <= b - a
    decreases b - a
  {
    if a < b {
      PlacesBound(t, a, b - 1);
    }
  }

  lemma {:induction false} PlacesClean(t: string, a: int, b: int)
    requires a <= b && NoUnderscore(t, a, b)
    ensures Places(t, a, b) == b - a
    decreases b - a
  {
    if a < b {
      PlacesClean(t, a, b - 1);
    }
  }

  lemma {:induction false} PlacesSplit(t: string, a: int, b: int, c: int)
    requires a <= b <= c
    ensures Places(t, a, c) == Places(t, a, b) + Places(t, b, c)
    decreases c - b
  {
    if b < c {
      PlacesSplit(t, a, b, c - 1);
    }
  }

  lemma {:induction false} SpanSplit(t: string, a: int, b: int, c: int)
    requires a <= b <= c
    ensures Span(t, a, c) == Span(t, a, b) * Pow10(Places(t, b, c)) + Span(t, b, c)
    decreases c - b
  {
    if b < c {
      SpanSplit(t, a, b, c - 1);
      var x, p := Span(t, a, b), Pow10(Places(t, b, c - 1));
      Times10(p, x);
      assert x * p * 10 == x * (10 * p);
    }
  }

  lemma {:induction false} SpanOfZeros(t: string, a: int, b: int)
    requires a <= b && forall p: int :: a <= p < b ==> CharAt(t, p) == '0'
    ensures Span(t, a, b) == 0
    decreases b - a
  {
    if a < b {
      SpanOfZeros(t, a, b - 1);
    }
  }

  /** Inside the text this is the number that the integer parser reads there. */
  lemma {:induction false} SpanIsNumber(t: string, a: nat, b: nat)
    requires a <= b <= |t|
    ensures Span(t, a, b) == NumberIn(t, a, b, 10)
    decreases b
  {
    if a < b {
      SpanIsNumber(t, a, b - 1);
    }
  }

  // ----- rounding

  /** n / 10^k rounded to the nearest natural number, halves up; k may be negative. */
  function RoundHalfUp(n: nat, k: int): int {
    if k <= 0 then n * Pow10(-k) else (2 * n + Pow10(k)) / (2 * Pow10(k))
  }

  /** No other multiple of 10^k is nearer, and of two equally near ones it is the larger. */
  lemma RoundsToNearest(n: nat, k: nat)
    requires k > 0
    ensures RoundHalfUp(n, k) >= 0
    ensures 2 * (RoundHalfUp(n, k) * Pow10(k)) <= 2 * n + Pow10(k) < 2 * (RoundHalfUp(n, k) * Pow10(k)) + 2 * Pow10(k)
  {
    var p := Pow10(k);
    Quotient(2 * n + p, 2 * p);
    DoubleOut((2 * n + p) / (2 * p), p);
  }

  lemma DoubleOut(r: nat, p: nat)
    ensures r * (2 * p) == 2 * (r * p)
  {
  }

  /** Cutting a numeral after some digit, and adding one if the next is five or more, rounds. */
  lemma CutRounds(n: nat, q: nat, digit: nat, rest: nat, k: nat)
    requires k > 0 && digit <= 9 && rest < Pow10(k - 1)
    requires n == q * Pow10(k) + digit * Pow10(k - 1) + rest
    ensures RoundHalfUp(n, k) == q + if digit >= 5 then 1 else 0
  {
    var p := Pow10(k - 1);
    Times10(p, q);
    assert q * Pow10(k) == 10 * (q * p);
    CutQuotient(n, q, digit, rest, p);
  }

  lemma CutQuotient(n: nat, q: nat, digit: nat, rest: nat, p: nat)
    requires digit <= 9 && rest < p && n == 10 * (q * p) + digit * p + rest
    ensures (2 * n + 10 * p) / (20 * p) == q + if digit >= 5 then 1 else 0
  {
    var e := digit * p;
    if digit >= 5 {
      ProductBetween(digit, 5, 9, p);
      Twenty(q + 1, p);
      DivUnique(2 * n + 10 * p, q + 1, 2 * e + 2 * rest - 10 * p, 20 * p);
    } else {
      ProductBetween(digit, 0, 4, p);
      Twenty(q, p);
      DivUnique(2 * n + 10 * p, q, 2 * e + 2 * rest + 10 * p, 20 * p);
    }
  }

  lemma Twenty(q: nat, p: nat)
    ensures q * (20 * p) == 20 * (q * p) && (q > 0 ==> q * p == (q - 1) * p + p)
  {
  }

  lemma ProductBetween(x: nat, lo: nat, hi: nat, p: nat)
    requires lo <= x <= hi
    ensures lo * p <= x * p <= hi * p
  {
    MulNonNeg(x - lo, p);
    MulNonNeg(hi - x, p);
    assert (x - lo) * p == x * p - lo * p && (hi - x) * p == hi * p - x * p;
  }

  // ----- the digits that are kept

  /** The parts before and after the point, with d digits of fraction, and whether the next
      position rounds up; an underscore there does. */
  function IntPart(t: string, point: int): nat {
    if point <= 0 then 0 else Span(t, 0, point)
  }

  function FracPart(t: string, point: int, d: nat): nat {
    Span(t, point, point + d)
  }

  predicate RoundsUp(t: string, p: int) {
    CharAt(t, p) == '_' || DigitOf(CharAt(t, p), 10) >= 5
  }

  function Scaled(t: string, point: int, d: nat): nat {
    IntPart(t, point) * Pow10(d) + FracPart(t, point, d) + if RoundsUp(t, point + d) then 1 else 0
  }

  lemma FracFits(t: string, point: int, d: nat)
    requires DigitText(t)
    ensures FracPart(t, point, d) < Pow10(d)
  {
    SpanBelow(t, point, point + d);
    PlacesBound(t, point, point + d);
    Pow10Mono(Places(t, point, point + d), d);
  }

  lemma {:induction false} Pow10Mono(a: nat, b: nat)
    requires a <= b
    ensures Pow10(a) <= Pow10(b)
  {
    if a < b {
      Pow10Mono(a, b - 1);
    }
  }

  /** The number in the text does not change if it is read from a position before the text. */
  lemma ReadFromBefore(t: string, lo: int)
    requires lo <= 0
    ensures Span(t, lo, |t|) == Span(t, 0, |t|)
  {
    SpanSplit(t, lo, 0, |t|);
    SpanOfZeros(t, lo, 0);
  }

  predicate NoneBetween(t: string, a: int, b: int) {
    NoUnderscore(t, a, b) && NoUnderscore(t, b, a)
  }

  /** When a text with underscores is read correctly: `ints` is the length of its integer part,
      and `point` where the point is once the exponent has moved it. Underscores count as digit
      positions for the exponent and for the number of fraction digits, so there may be none
      between the two points nor among the fraction digits read, except one that ends the text
      right at the point; and the position that decides the rounding must not be one. */
  predicate Faithful(t: string, ints: nat, point: int, d: nat) {
    || point + d < 0
    || (&& CharAt(t, point + d) != '_'
        && if point <= 0 then NoneBetween(t, ints, point + d)
           else NoneBetween(t, ints, point) && (NoUnderscore(t, point, point + d) || |t| == point + 1))
  }

  /** The power of ten by which the digits, read as a whole number, exceed the kept value. */
  function Excess(t: string, ints: nat, point: int, d: nat): int
    requires ints <= |t|
  {
    Places(t, ints, |t|) - (point - ints) - d
  }

  /** The value kept is the number denoted, times 10^d, rounded to nearest, halves up. */
  predicate Right(t: string, ints: nat, point: int, d: nat)
    requires ints <= |t|
  {
    Scaled(t, point, d) == RoundHalfUp(Span(t, 0, |t|), Excess(t, ints, point, d))
  }

  /** How many digits of the number are cut off. */
  lemma CutPlaces(t: string, ints: nat, m: int)
    requires ints <= |t| && m <= |t| && NoneBetween(t, ints, m)
    ensures Places(t, m, |t|) == Places(t, ints, |t|) - (m - ints)
  {
    if ints <= m {
      PlacesSplit(t, ints, m, |t|);
      PlacesClean(t, ints, m);
    } else {
      PlacesSplit(t, m, ints, |t|);
      PlacesClean(t, m, ints);
    }
  }

  lemma RoundInside(t: string, lo: int, m: int)
    requires DigitText(t) && lo <= m < |t| && lo <= 0 && CharAt(t, m) != '_'
    ensures RoundHalfUp(Span(t, lo, |t|), Places(t, m, |t|)) == Span(t, lo, m) + if RoundsUp(t, m) then 1 else 0
  {
    var k := Places(t, m, |t|);
    SpanSplit(t, lo, m, |t|);
    SpanSplit(t, m, m + 1, |t|);
    PlacesSplit(t, m, m + 1, |t|);
    assert Places(t, m, m) == 0 && Span(t, m, m) == 0;
    var digit, rest := DigitOf(CharAt(t, m), 10), Span(t, m + 1, |t|);
    assert Places(t, m, m + 1) == 1 && Span(t, m, m + 1) == digit;
    SpanBelow(t, m + 1, |t|);
    CharIsDigit(t, m);
    CutRounds(Span(t, lo, |t|), Span(t, lo, m), digit, rest, k);
  }

  /** Cutting the text at position m rounds it, wherever that position is. */
  lemma CutIsRight(t: string, ints: nat, lo: int, m: int)
    requires DigitText(t) && ints <= |t| && lo <= m && lo <= 0
    requires CharAt(t, m) != '_' && NoneBetween(t, ints, m)
    ensures Span(t, lo, m) + (if RoundsUp(t, m) then 1 else 0)
         == RoundHalfUp(Span(t, 0, |t|), Places(t, ints, |t|) - (m - ints))
  {
    ReadFromBefore(t, lo);
    if m < |t| {
      CutPlaces(t, ints, m);
      RoundInside(t, lo, m);
    } else {
      SpanSplit(t, lo, |t|, m);
      SpanOfZeros(t, |t|, m);
      PlacesClean(t, |t|, m);
      PlacesClean(t, ints, |t|);
    }
  }

  lemma NoneToCut(t: string, ints: nat, point: int, d: nat)
    requires NoneBetween(t, ints, point) && NoUnderscore(t, point, point + d)
    ensures NoneBetween(t, ints, point + d)
  {
  }

  /** An underscore that ends the text right at the point is harmless. */
  lemma LastIsSkipped(t: string, ints: nat, point: int, d: nat)
    requires DigitText(t) && ints <= |t| == point + 1 && point > 0 && CharAt(t, point) == '_'
             && CharAt(t, point + d) != '_'
    requires NoneBetween(t, ints, point)
    ensures Right(t, ints, point, d)
  {
    assert ints <= point;
    PlacesClean(t, ints, point);
    assert Span(t, 0, |t|) == Span(t, 0, point);
    SpanSplit(t, point, |t|, point + d);
    SpanOfZeros(t, |t|, point + d);
    assert Span(t, point, point) == 0;
    assert Span(t, point, |t|) == 0;
  }

  /** Below the last kept digit by two places or more, everything rounds to zero. */
  lemma TinyRoundsToZero(n: nat, k: int)
    requires k > 0 && n < Pow10(k - 1)
    ensures RoundHalfUp(n, k) == 0
  {
    DivUnique(2 * n + Pow10(k), 0, 2 * n + Pow10(k), 2 * Pow10(k));
  }

  lemma TinyIsRight(t: string, ints: nat, point: int, d: nat)
    requires DigitText(t) && ints <= |t| && point + d < 0
    ensures Right(t, ints, point, d)
  {
    SpanOfZeros(t, point, point + d);
    PlacesSplit(t, 0, ints, |t|);
    PlacesBound(t, 0, ints);
    SpanBelow(t, 0, |t|);
    var k := Excess(t, ints, point, d);
    Pow10Mono(Places(t, 0, |t|), k - 1);
    TinyRoundsToZero(Span(t, 0, |t|), k);
  }

  /** Correct rounding, for every text that is read faithfully. */
  lemma CorrectlyRounded(t: string, ints: nat, point: int, d: nat)
    requires DigitText(t) && ints <= |t| && Faithful(t, ints, point, d)
    ensures Right(t, ints, point, d)
  {
    var m := point + d;
    if m < 0 {
      TinyIsRight(t, ints, point, d);
    } else if point <= 0 {
      CutIsRight(t, ints, point, m);
    } else if NoUnderscore(t, point, m) {
      NoneToCut(t, ints, point, d);
      SpanSplit(t, 0, point, m);
      PlacesClean(t, point, m);
      CutIsRight(t, ints, 0, m);
    } else {
      LastIsSkipped(t, ints, point, d);
    }
  }

  /** A text without underscores is always faithful, and its places are its characters. */
  lemma PlainIsFaithful(t: string, ints: nat, point: int, d: nat)
    requires '_' !in t && ints <= |t|
    ensures Faithful(t, ints, point, d) && Excess(t, ints, point, d) == |t| - point - d
  {
    assert forall p: int :: CharAt(t, p) != '_';
    PlacesClean(t, ints, |t|);
  }
}
