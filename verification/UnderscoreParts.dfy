/** Which placements of underscores are harmless for the two parts that the parser returns. These
    saturate, so besides the faithful layouts there are those whose every number but zero is too
    large either way. */
module UnderscoreParts {
  import opened Arith
  import opened Decimal
  import opened ConfReal10
  import opened DecimalUnderscores

  /** The parts kept are those of the number denoted, rounded half up to d digits and saturated. */
  predicate RightParts(t: string, ints: nat, point: int, d: nat)
    requires ints <= |t|
  {
    Meant(t, ints, point, d) >= 0 && Saturated(Scaled(t, point, d), d) == Saturated(Meant(t, ints, point, d), d)
  }

  lemma SaturatedTells(x: nat, y: nat, d: nat)
    requires x != y && (x < 0x1_0000_0000 * Pow10(d) || y < 0x1_0000_0000 * Pow10(d))
    ensures Saturated(x, d) != Saturated(y, d)
  {
    var p := Pow10(d);
    Quotient(x, p);
    Quotient(y, p);
  }

  lemma Ten(d: nat)
    ensures Pow10(d + 9) < 0x1_0000_0000 * Pow10(d) <= Pow10(d + 10)
  {
    TableIsPow10(9);
    Pow10Add(d, 9);
    Pow10Add(d, 10);
    assert Pow10(10) == 10 * Pow10(9);
    FactorsBound(Pow10(d));
  }

  lemma FactorsBound(p: nat)
    requires p >= 1
    ensures p * 1000000000 < 0x1_0000_0000 * p <= p * 10000000000
  {
  }

  /** With ten zeros or more to read after the text, any number but zero saturates, both as it is
      kept and as it is meant. */
  lemma FarPointSaturates(t: string, ints: nat, point: int, d: nat)
    requires DigitText(t) && ints <= |t| && point >= |t| + 10
    ensures RightParts(t, ints, point, d)
  {
    var n, zeros := Span(t, 0, |t|), Places(t, |t|, point);
    SpanSplit(t, 0, |t|, point);
    SpanOfZeros(t, |t|, point);
    PlacesClean(t, |t|, point);
    SpanOfZeros(t, point, point + d);
    PlacesBound(t, ints, |t|);
    var k := Excess(t, ints, point, d);
    FarProducts(n, zeros, d, -k);
  }

  lemma FarProducts(n: nat, zeros: nat, d: nat, more: nat)
    requires zeros >= 10 && more >= d + 10
    ensures n == 0 ==> n * Pow10(zeros) * Pow10(d) == 0 && n * Pow10(more) == 0
    ensures var limit := 0x1_0000_0000 * Pow10(d);
            n > 0 ==> n * Pow10(zeros) * Pow10(d) >= limit && n * Pow10(more) >= limit
  {
    FarWeights(zeros, d, more);
    FarTimes(n, Pow10(zeros), Pow10(d), Pow10(more), 0x1_0000_0000 * Pow10(d));
  }

  lemma FarWeights(zeros: nat, d: nat, more: nat)
    requires zeros >= 10 && more >= d + 10
    ensures Pow10(zeros) * Pow10(d) >= 0x1_0000_0000 * Pow10(d) && Pow10(more) >= 0x1_0000_0000 * Pow10(d)
  {
    Ten(d);
    Pow10Mono(d + 10, more);
    Pow10Mono(d + 10, zeros + d);
    Pow10Add(zeros, d);
  }

  lemma FarTimes(n: nat, a: nat, b: nat, c: nat, limit: nat)
    requires a * b >= limit && c >= limit
    ensures n == 0 ==> n * a * b == 0 && n * c == 0
    ensures n > 0 ==> n * a * b >= limit && n * c >= limit
  {
    Times(n, a, b, limit);
    if n > 0 {
      MulAtLeast(n, c);
    }
  }

  lemma Times(n: nat, a: nat, b: nat, limit: nat)
    requires a * b >= limit
    ensures n == 0 ==> n * a * b == 0
    ensures n > 0 ==> n * a * b >= limit
  {
    assert n * a * b == n * (a * b);
    if n > 0 {
      MulAtLeast(n, a * b);
    }
  }

  /** Exactly when underscores are harmless in the parts: the layout is faithful, or the point is
      moved at least ten places past the end of the text. */
  lemma UnderscoresExactParts(t: string, ints: nat, point: int, d: nat)
    requires Separated(t, ints)
    ensures (forall u :: SameLayout(t, u) ==> RightParts(u, ints, point, d))
       <==> Faithful(t, ints, point, d) || point >= |t| + 10
  {
    if point >= |t| + 10 {
      forall u | SameLayout(t, u)
        ensures RightParts(u, ints, point, d)
      {
        FarPointSaturates(u, ints, point, d);
      }
    } else if Faithful(t, ints, point, d) {
      UnderscoresExact(t, ints, point, d);
      forall u | SameLayout(t, u)
        ensures RightParts(u, ints, point, d)
      {
        assert Right(u, ints, point, d);
      }
    } else {
      var u := SomeMisread(t, ints, point, d);
      WrongParts(u, ints, point, d);
    }
  }

  lemma WrongParts(u: string, ints: nat, point: int, d: nat)
    requires ints <= |u| && !Right(u, ints, point, d)
    requires Scaled(u, point, d) <= Pow10(d + 9) || Meant(u, ints, point, d) == 0
    ensures !RightParts(u, ints, point, d)
  {
    Ten(d);
    if Meant(u, ints, point, d) >= 0 {
      SaturatedTells(Scaled(u, point, d), Meant(u, ints, point, d), d);
    }
  }

  // ----- the same for whole texts

  /** The digits of a number, with its underscores. */
  function Digits(n: Lexed): string
    requires n.Number?
  {
    n.ints + n.fracs
  }

  /** Where the exponent moves the point. */
  function PointOf(n: Lexed, delta: int): int
    requires n.Number?
  {
    |n.ints| + n.exponent + delta
  }

  /** Two numbers that differ in digits of the integer part and the fraction only. */
  predicate SameShape(n: Lexed, n': Lexed)
    requires n.Number?
  {
    n'.Number? && |n'.ints| == |n.ints| && n'.exponent == n.exponent && SameLayout(Digits(n), Digits(n'))
  }

  /** The parts are those of the number denoted, rounded half up to d digits and saturated. */
  predicate ReadRight(n: Lexed, d: nat, delta: int, parts: Parts)
    requires n.Number?
  {
    var meant := Meant(Digits(n), |n.ints|, PointOf(n, delta), d);
    meant >= 0 && parts == Saturated(meant, d)
  }

  lemma PartsAre(s: string, d: nat, delta: int, n: Lexed)
    requires d <= 9 && Lex(s) == n && n.Number? && PointFits(|n.ints|, n.exponent, delta, d)
    ensures PartsOf(s, d, delta) == Saturated(Scaled(Digits(n), PointOf(n, delta), d), d)
  {
  }

  /** Same kind of character: the same, or both digits. */
  predicate Alike(s: string, s': string) {
    |s| == |s'| && forall p :: 0 <= p < |s| ==> s[p] == s'[p] || (IsDecimal(s[p]) && IsDecimal(s'[p]))
  }

  lemma {:induction false} RunAlike(s: string, s': string, start: nat, i: nat)
    requires Alike(s, s') && i <= |s|
    ensures RunOfDigitsEnd(s, start, i) == RunOfDigitsEnd(s', start, i)
    decreases |s| - i
  {
    if i < |s| {
      RunAlike(s, s', start, i + 1);
    }
  }

  lemma {:induction false} ExponentAlike(s: string, s': string, i: nat, e: nat)
    requires |s| == |s'| && i <= |s| && forall p :: i <= p < |s| ==> s[p] == s'[p]
    ensures ExponentFrom(s, i, e) == ExponentFrom(s', i, e)
    decreases |s| - i
  {
    if i < |s| {
      if IsDecimal(s[i]) && 10 * e + s[i] as int <= 0x7FFF_FFFF {
        ExponentAlike(s, s', i + 1, 10 * e + s[i] as int - '0' as int);
      }
      ExponentAlike(s, s', i + 1, e);
    }
  }

  lemma ExponentAtAlike(s: string, s': string, k: nat, ints: string, fracs: string, ints': string, fracs': string)
    requires |s| == |s'| && k <= |s| && forall p :: k <= p < |s| ==> s[p] == s'[p]
    requires ExponentAt(s, k, ints, fracs).Number?
    ensures ExponentAt(s', k, ints', fracs') == Number(ints', fracs', ExponentAt(s, k, ints, fracs).exponent)
  {
    if k + 1 < |s| && (s[k] == 'E' || s[k] == 'e') {
      var i := if s[k + 1] == '-' || s[k + 1] == '+' then k + 2 else k + 1;
      if i < |s| {
        ExponentAlike(s, s', i, 0);
      }
    }
  }

  /** Where the integer part and the fraction of a text lie. */
  datatype Spots = Spots(i: nat, j: nat, f: nat, k: nat)

  function SpotsOf(s: string): (r: Spots)
    ensures r.i <= r.j <= r.f <= r.k <= |s|
  {
    var i := if s != "" && s[0] == '+' then 1 else 0;
    var j := RunOfDigitsEnd(s, i, i);
    if j < |s| && s[j] == '.' then Spots(i, j, j + 1, RunOfDigitsEnd(s, j + 1, j + 1)) else Spots(i, j, j, j)
  }

  lemma SpotsAlike(s: string, s': string)
    requires Alike(s, s')
    ensures SpotsOf(s) == SpotsOf(s')
  {
    var i := if s != "" && s[0] == '+' then 1 else 0;
    var j := RunOfDigitsEnd(s, i, i);
    RunAlike(s, s', i, i);
    if j < |s| && s[j] == '.' {
      RunAlike(s, s', j + 1, j + 1);
    }
  }

  lemma LexBySpots(s: string)
    ensures var r := SpotsOf(s);
            Lex(s) == if r.j == r.i && r.f == r.k then Malformed else ExponentAt(s, r.k, s[r.i..r.j], s[r.f..r.k])
  {
  }

  /** s with other digits. */
  function Relettered(s: string, r: Spots, u: string): (s': string)
    requires r.i <= r.j <= r.f <= r.k <= |s| && |u| == (r.j - r.i) + (r.k - r.f)
    ensures |s'| == |s|
  {
    seq(|s|, p requires 0 <= p < |s| =>
      if r.i <= p < r.j then u[p - r.i] else if r.f <= p < r.k then u[r.j - r.i + p - r.f] else s[p])
  }

  lemma ReletteredAlike(s: string, r: Spots, u: string)
    requires r.i <= r.j <= r.f <= r.k <= |s| && SameLayout(s[r.i..r.j] + s[r.f..r.k], u)
    requires DigitText(s[r.i..r.j] + s[r.f..r.k])
    ensures Alike(s, Relettered(s, r, u))
  {
    var s', t := Relettered(s, r, u), s[r.i..r.j] + s[r.f..r.k];
    forall p | 0 <= p < |s|
      ensures s[p] == s'[p] || (IsDecimal(s[p]) && IsDecimal(s'[p]))
    {
      if r.i <= p < r.j {
        assert s[p] == t[p - r.i] && s'[p] == u[p - r.i];
      } else if r.f <= p < r.k {
        assert s[p] == t[r.j - r.i + p - r.f] && s'[p] == u[r.j - r.i + p - r.f];
      }
    }
  }

  lemma ReletteredParts(s: string, r: Spots, u: string, s': string)
    requires r.i <= r.j <= r.f <= r.k <= |s| && |u| == (r.j - r.i) + (r.k - r.f) && s' == Relettered(s, r, u)
    ensures s'[r.i..r.j] == u[..r.j - r.i] && s'[r.f..r.k] == u[r.j - r.i..]
    ensures forall p :: r.k <= p < |s| ==> s'[p] == s[p]
  {
  }

  lemma SpotsOfNumber(s: string, n: Lexed)
    requires Lex(s) == n && n.Number?
    ensures var r := SpotsOf(s); n.ints == s[r.i..r.j] && n.fracs == s[r.f..r.k] && DigitText(Digits(n))
  {
    LexBySpots(s);
    LexedDigits(s);
  }

  lemma SplitShape(n: Lexed, u: string, cut: nat)
    requires n.Number? && cut == |n.ints| && SameLayout(Digits(n), u)
    ensures var n' := Number(u[..cut], u[cut..], n.exponent); SameShape(n, n') && Digits(n') == u
  {
    assert u[..cut] + u[cut..] == u;
  }

  /** Every layout of digits is that of a text. */
  lemma SomeText(s: string, n: Lexed, u: string) returns (s': string)
    requires Lex(s) == n && n.Number? && SameLayout(Digits(n), u)
    ensures SameShape(n, Lex(s')) && Digits(Lex(s')) == u
  {
    var r := SpotsOf(s);
    SpotsOfNumber(s, n);
    SplitShape(n, u, |n.ints|);
    s' := Relettered(s, r, u);
    ReletteredLex(s, r, u, s');
  }

  lemma ReletteredLex(s: string, r: Spots, u: string, s': string)
    requires Lex(s).Number? && r == SpotsOf(s) && SameLayout(s[r.i..r.j] + s[r.f..r.k], u) && s' == Relettered(s, r, u)
    requires DigitText(s[r.i..r.j] + s[r.f..r.k])
    ensures Lex(s') == Number(u[..r.j - r.i], u[r.j - r.i..], Lex(s).exponent)
  {
    LexBySpots(s);
    ReletteredAlike(s, r, u);
    ReletteredParts(s, r, u, s');
    SpotsAlike(s, s');
    LexBySpots(s');
    ExponentAtAlike(s, s', r.k, s[r.i..r.j], s[r.f..r.k], s'[r.i..r.j], s'[r.f..r.k]);
  }

  ghost predicate AllReadRight(n: Lexed, d: nat, delta: int)
    requires n.Number?
  {
    forall s' :: SameShape(n, Lex(s')) ==> ReadRight(Lex(s'), d, delta, PartsOf(s', d, delta))
  }

  ghost predicate AllRightParts(n: Lexed, d: nat, delta: int)
    requires n.Number?
  {
    forall u :: SameLayout(Digits(n), u) ==> RightParts(u, |n.ints|, PointOf(n, delta), d)
  }

  lemma ReadRightIs(n: Lexed, n': Lexed, d: nat, delta: int)
    requires n.Number? && SameShape(n, n')
    ensures ReadRight(n', d, delta, Saturated(Scaled(Digits(n'), PointOf(n', delta), d), d))
       <==> RightParts(Digits(n'), |n.ints|, PointOf(n, delta), d)
  {
  }

  lemma LayoutsToTexts(s: string, d: nat, delta: int, n: Lexed)
    requires d <= 9 && n.Number? && PointFits(|n.ints|, n.exponent, delta, d)
    requires AllRightParts(n, d, delta)
    ensures AllReadRight(n, d, delta)
  {
    forall s' | SameShape(n, Lex(s'))
      ensures ReadRight(Lex(s'), d, delta, PartsOf(s', d, delta))
    {
      PartsAre(s', d, delta, Lex(s'));
      ReadRightIs(n, Lex(s'), d, delta);
    }
  }

  lemma TextsToLayouts(s: string, d: nat, delta: int, n: Lexed)
    requires d <= 9 && Lex(s) == n && n.Number? && PointFits(|n.ints|, n.exponent, delta, d)
    requires AllReadRight(n, d, delta)
    ensures AllRightParts(n, d, delta)
  {
    forall u | SameLayout(Digits(n), u)
      ensures RightParts(u, |n.ints|, PointOf(n, delta), d)
    {
      var s' := SomeText(s, n, u);
      OneText(s', u, d, delta, n, Lex(s'));
    }
  }

  lemma OneText(s': string, u: string, d: nat, delta: int, n: Lexed, n': Lexed)
    requires d <= 9 && n.Number? && PointFits(|n.ints|, n.exponent, delta, d)
    requires Lex(s') == n' && SameShape(n, n') && Digits(n') == u && AllReadRight(n, d, delta)
    ensures RightParts(u, |n.ints|, PointOf(n, delta), d)
  {
    PartsAre(s', d, delta, n');
    ReadRightIs(n, n', d, delta);
  }

  /** Whether the underscores of a number can do no harm. */
  predicate Harmless(n: Lexed, d: nat, delta: int)
    requires n.Number?
  {
    Faithful(Digits(n), |n.ints|, PointOf(n, delta), d) || PointOf(n, delta) >= |Digits(n)| + 10
  }

  /** Exactly when underscores are harmless in what the parser returns: every text that differs from
      s in its digits only is read right if and only if the layout of s is faithful, or its
      exponent moves the point at least ten places past the end of its digits. */
  lemma ReadRightExactly(s: string, d: nat, delta: int, n: Lexed)
    requires d <= 9 && Lex(s) == n && n.Number? && PointFits(|n.ints|, n.exponent, delta, d)
    ensures AllReadRight(n, d, delta) <==> Harmless(n, d, delta)
  {
    LexedSeparated(s);
    UnderscoresExactParts(Digits(n), |n.ints|, PointOf(n, delta), d);
    assert AllRightParts(n, d, delta) <==> Harmless(n, d, delta);
    if AllReadRight(n, d, delta) {
      TextsToLayouts(s, d, delta, n);
    }
    if AllRightParts(n, d, delta) {
      LayoutsToTexts(s, d, delta, n);
    }
  }
}
