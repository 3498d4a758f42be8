/** Which placements of underscores a decimal text can have without being misread: if every
    choice of the digits is to be rounded correctly, the condition `Faithful` is necessary, not
    only sufficient. Each way of failing it is met with a text that has a single digit other
    than zero. */
module DecimalUnderscores {
  import opened Arith
  import opened ConfInteger
  import opened Decimal
  import opened ConfReal10

  /** The same underscores, and any digits. */
  predicate SameLayout(t: string, u: string) {
    DigitText(u) && |t| == |u| && forall p :: 0 <= p < |t| ==> (t[p] == '_' <==> u[p] == '_')
  }

  /** Underscores separate digits: none starts a part of the number, and no two are adjacent. */
  predicate Separated(t: string, ints: nat) {
    && DigitText(t) && ints <= |t| && (t != "" ==> t[0] != '_') && (ints < |t| ==> t[ints] != '_')
    && forall p :: 0 <= p < |t| - 1 && t[p] == '_' ==> t[p + 1] != '_'
  }

  /** The digit c at position q, zeros elsewhere, and the underscores of t. */
  function OneDigit(t: string, q: int, c: char): string {
    seq(|t|, p requires 0 <= p < |t| => if t[p] == '_' then '_' else if p == q then c else '0')
  }

  lemma OneDigitLayout(t: string, q: int, c: char)
    requires '0' <= c <= '9'
    ensures SameLayout(t, OneDigit(t, q, c))
  {
  }

  lemma {:induction false} SamePlaces(t: string, u: string, a: int, b: int)
    requires a <= b && SameLayout(t, u)
    ensures Places(t, a, b) == Places(u, a, b)
    decreases b - a
  {
    if a < b {
      SamePlaces(t, u, a, b - 1);
    }
  }

  lemma OneDigitSpan(t: string, q: int, c: char, a: int, b: int)
    requires a <= b && '0' <= c <= '9' && (0 <= q < |t| ==> t[q] != '_')
    ensures Span(OneDigit(t, q, c), a, b) ==
            if a <= q < b && 0 <= q < |t| then DigitOf(c, 10) * Pow10(Places(t, q + 1, b)) else 0
  {
    forall p: int
      ensures OnlyDigit(t, OneDigit(t, q, c), q, c, p)
    {
      OneDigitChar(t, q, c, p);
    }
    OnlyDigitSpan(t, OneDigit(t, q, c), q, c, a, b);
  }

  predicate OnlyDigit(t: string, u: string, q: int, c: char, p: int) {
    CharAt(u, p) == if CharAt(t, p) == '_' then '_' else if p == q && 0 <= q < |t| then c else '0'
  }

  lemma {:induction false} OnlyDigitSpan(t: string, u: string, q: int, c: char, a: int, b: int)
    requires a <= b && (0 <= q < |t| ==> t[q] != '_') && c != '_'
    requires forall p: int :: OnlyDigit(t, u, q, c, p)
    ensures Span(u, a, b) == if a <= q < b && 0 <= q < |t| then DigitOf(c, 10) * Pow10(Places(t, q + 1, b)) else 0
    decreases b - a
  {
    if a < b {
      OnlyDigitSpan(t, u, q, c, a, b - 1);
      assert OnlyDigit(t, u, q, c, b - 1);
      if a <= q < b - 1 && 0 <= q < |t| {
        WeightGrows(t, q + 1, b, DigitOf(c, 10));
      }
    }
  }

  lemma WeightGrows(t: string, a: int, b: int, v: nat)
    requires a < b
    ensures v * Pow10(Places(t, a, b)) == v * Pow10(Places(t, a, b - 1)) * if CharAt(t, b - 1) == '_' then 1 else 10
  {
    if CharAt(t, b - 1) != '_' {
      var p := Pow10(Places(t, a, b - 1));
      assert Pow10(Places(t, a, b)) == 10 * p;
      assert v * (10 * p) == v * p * 10;
    }
  }

  lemma OneDigitChar(t: string, q: int, c: char, p: int)
    requires 0 <= q < |t| ==> t[q] != '_'
    ensures CharAt(OneDigit(t, q, c), p) ==
            if CharAt(t, p) == '_' then '_' else if p == q && 0 <= q < |t| then c else '0'
  {
  }

  /** What is kept of a text with a single 1. */
  lemma OneScaled(t: string, q: nat, point: int, d: nat)
    requires q < |t| && t[q] != '_' && CharAt(t, point + d) != '_'
    ensures Scaled(OneDigit(t, q, '1'), point, d) ==
            if q < point then Pow10(Places(t, q + 1, point)) * Pow10(d)
            else if q < point + d then Pow10(Places(t, q + 1, point + d))
            else 0
  {
    OneIntPart(t, q, point);
    OneFracPart(t, q, point, d);
    OneDigitChar(t, q, '1', point + d);
  }

  lemma OneIntPart(t: string, q: nat, point: int)
    requires q < |t| && t[q] != '_'
    ensures IntPart(OneDigit(t, q, '1'), point) == if q < point then Pow10(Places(t, q + 1, point)) else 0
  {
    if point > 0 {
      OneDigitSpan(t, q, '1', 0, point);
    }
  }

  lemma OneFracPart(t: string, q: nat, point: int, d: nat)
    requires q < |t| && t[q] != '_'
    ensures FracPart(OneDigit(t, q, '1'), point, d) ==
            if point <= q < point + d then Pow10(Places(t, q + 1, point + d)) else 0
  {
    OneDigitSpan(t, q, '1', point, point + d);
  }

  /** The text with a single 1 is misread when it is read as the wrong power of ten. */
  lemma MisreadPower(t: string, q: nat, ints: nat, point: int, d: nat, x: nat) returns (u: string)
    requires Separated(t, ints) && q < |t| && t[q] != '_'
    requires Scaled(OneDigit(t, q, '1'), point, d) == Pow10(x)
    requires x != Places(t, q + 1, |t|) - Excess(t, ints, point, d)
    ensures SameLayout(t, u) && !Right(u, ints, point, d) && Scaled(u, point, d) == Pow10(x)
  {
    u := OneDigit(t, q, '1');
    OneDigitLayout(t, q, '1');
    OneDigitSpan(t, q, '1', 0, |t|);
    SamePlaces(t, u, ints, |t|);
    PowerDiffers(x, Places(t, q + 1, |t|), Excess(t, ints, point, d));
  }

  // ----- powers of ten

  lemma Pow10Less(a: nat, b: nat)
    requires a < b
    ensures 10 * Pow10(a) <= Pow10(b)
  {
    Pow10Mono(a + 1, b);
  }

  /** A power of ten divided by another is a power of ten or rounds to zero. */
  lemma PowerRounded(e: nat, k: int)
    ensures RoundHalfUp(Pow10(e), k) == if e >= k then Pow10(e - k) else 0
  {
    if k <= 0 {
      Pow10Add(e, -k);
    } else if e >= k {
      Pow10Add(e - k, k);
      var p := Pow10(k);
      assert 2 * Pow10(e) + p == Pow10(e - k) * (2 * p) + p;
      DivUnique(2 * Pow10(e) + p, Pow10(e - k), p, 2 * p);
    } else {
      Pow10Less(e, k);
      DivUnique(2 * Pow10(e) + Pow10(k), 0, 2 * Pow10(e) + Pow10(k), 2 * Pow10(k));
    }
  }

  /** A kept power of ten is right only if it is the right power. */
  lemma PowerDiffers(x: nat, e: nat, k: int)
    requires x != e - k
    ensures Pow10(x) != RoundHalfUp(Pow10(e), k)
  {
    PowerRounded(e, k);
    if e >= k {
      if x < e - k {
        Pow10Less(x, e - k);
      } else {
        Pow10Less(e - k, x);
      }
    }
  }

  lemma {:induction false} PlacesDirty(t: string, a: int, b: int)
    requires a <= b && !NoUnderscore(t, a, b)
    ensures Places(t, a, b) < b - a
  {
    var p: int :| a <= p < b && CharAt(t, p) == '_';
    PlacesSplit(t, a, p, b);
    PlacesSplit(t, p, p + 1, b);
    assert Places(t, p, p) == 0;
    PlacesBound(t, a, p);
    PlacesBound(t, p + 1, b);
  }

  // ----- the ways to fail

  /** The number denoted, times 10^d, rounded half up. */
  function Meant(t: string, ints: nat, point: int, d: nat): int
    requires ints <= |t|
  {
    RoundHalfUp(Span(t, 0, |t|), Excess(t, ints, point, d))
  }

  /** An underscore that decides the rounding: zero is rounded up to one. */
  lemma RoundedByUnderscore(t: string, ints: nat, point: int, d: nat) returns (u: string)
    requires Separated(t, ints) && CharAt(t, point + d) == '_'
    ensures SameLayout(t, u) && !Right(u, ints, point, d) && Meant(u, ints, point, d) == 0
  {
    u := OneDigit(t, -1, '0');
    OneDigitLayout(t, -1, '0');
    OneDigitSpan(t, -1, '0', 0, |t|);
    var k := Excess(u, ints, point, d);
    if k > 0 {
      TinyRoundsToZero(0, k);
    }
  }

  /** How the places after a digit compare with the places after the integer part. */
  lemma DigitPower(t: string, q: nat, ints: nat, m: int)
    requires ints <= |t| && q < |t| && q < m && !NoneBetween(t, ints, m)
    ensures Places(t, q + 1, m) != Places(t, q + 1, |t|) - (Places(t, ints, |t|) - (m - ints))
  {
    if m < ints {
      PlacesSplit(t, q + 1, ints, |t|);
      PlacesSplit(t, q + 1, m, ints);
      PlacesDirty(t, m, ints);
    } else {
      PlacesDirty(t, ints, m);
      if q < ints {
        PlacesSplit(t, q + 1, ints, |t|);
        PlacesSplit(t, q + 1, ints, m);
      } else {
        PlacesSplit(t, ints, q + 1, |t|);
        PlacesSplit(t, ints, q + 1, m);
      }
    }
  }

  /** The last digit before position b, or before the end of the text. */
  lemma LastDigit(t: string, ints: nat, b: int) returns (q: nat)
    requires Separated(t, ints) && t != "" && b >= 1
    ensures q < |t| && q < b && t[q] != '_' && Places(t, q + 1, b) <= if b <= |t| then 0 else b - |t|
  {
    var e := if b <= |t| then b else |t|;
    if t[e - 1] == '_' {
      q := e - 2;
      assert Places(t, e - 1, e - 1) == 0;
      assert Places(t, e - 1, e) == 0;
    } else {
      q := e - 1;
      assert Places(t, e, e) == 0;
    }
    PlacesSplit(t, q + 1, e, b);
    PlacesBound(t, e, b);
  }

  /** An underscore between the two points: the last digit before the moved point is a power of ten
      too high or low. */
  lemma PointMisplaced(t: string, ints: nat, point: int, d: nat) returns (u: string)
    requires Separated(t, ints) && CharAt(t, point + d) != '_'
    requires point >= 1 && !NoneBetween(t, ints, point)
    ensures SameLayout(t, u) && !Right(u, ints, point, d)
    ensures point < |t| + 10 ==> Scaled(u, point, d) <= Pow10(d + 9)
  {
    var q := LastDigit(t, ints, point);
    var x := Places(t, q + 1, point) + d;
    OneScaled(t, q, point, d);
    Pow10Add(Places(t, q + 1, point), d);
    DigitPower(t, q, ints, point);
    u := MisreadPower(t, q, ints, point, d, x);
    if point < |t| + 10 {
      Pow10Mono(x, d + 9);
    }
  }

  /** The same when the point lies before all digits. */
  lemma PointMisplacedBefore(t: string, ints: nat, point: int, d: nat) returns (u: string)
    requires Separated(t, ints) && CharAt(t, point + d) != '_'
    requires point <= 0 < point + d && !NoneBetween(t, ints, point + d)
    ensures SameLayout(t, u) && !Right(u, ints, point, d) && Scaled(u, point, d) <= Pow10(d + 9)
  {
    var x := Places(t, 1, point + d);
    OneScaled(t, 0, point, d);
    DigitPower(t, 0, ints, point + d);
    u := MisreadPower(t, 0, ints, point, d, x);
    PlacesBound(t, 1, point + d);
    Pow10Mono(x, d + 9);
  }

  /** The same when the first digit decides the rounding: a nine that counts for less than a
      tenth is rounded up. */
  lemma RoundedTooHigh(t: string, ints: nat, point: int, d: nat) returns (u: string)
    requires Separated(t, ints) && point <= 0 == point + d && !NoneBetween(t, ints, 0)
    ensures SameLayout(t, u) && !Right(u, ints, point, d) && Meant(u, ints, point, d) == 0
  {
    u := OneDigit(t, 0, '9');
    OneDigitLayout(t, 0, '9');
    OneDigitChar(t, 0, '9', 0);
    OneDigitSpan(t, 0, '9', 0, |t|);
    SamePlaces(t, u, ints, |t|);
    assert RoundsUp(u, 0);
    NineIsTiny(t, ints, Excess(t, ints, point, d));
  }

  lemma NineIsTiny(t: string, ints: nat, k: int)
    requires Separated(t, ints) && ints > 0 && !NoneBetween(t, ints, 0) && k == Places(t, ints, |t|) + ints
    ensures RoundHalfUp(9 * Pow10(Places(t, 1, |t|)), k) == 0
  {
    PlacesDirty(t, 0, ints);
    PlacesSplit(t, 0, 1, ints);
    PlacesSplit(t, 1, ints, |t|);
    assert Places(t, 0, 0) == 0 && Places(t, 0, 1) == 1;
    Pow10Less(Places(t, 1, |t|), k - 1);
    TinyRoundsToZero(9 * Pow10(Places(t, 1, |t|)), k);
  }

  /** An underscore among the fraction digits that are read: the digit before it is read too low. */
  lemma FractionShort(t: string, ints: nat, point: int, d: nat, p: int) returns (u: string)
    requires Separated(t, ints) && CharAt(t, point + d) != '_' && point >= 1 && NoneBetween(t, ints, point)
    requires point < p < point + d && CharAt(t, p) == '_' && NoUnderscore(t, point, p)
    ensures SameLayout(t, u) && !Right(u, ints, point, d) && Scaled(u, point, d) <= Pow10(d + 9)
  {
    OneScaled(t, p - 1, point, d);
    PlacesBefore(t, ints, point, p);
    PlacesDirty(t, p, point + d);
    u := MisreadPower(t, p - 1, ints, point, d, Places(t, p, point + d));
    Pow10Mono(Places(t, p, point + d), d + 9);
  }

  lemma PlacesBefore(t: string, ints: nat, point: int, p: int)
    requires ints <= |t| && point < p < |t| && NoneBetween(t, ints, point) && NoUnderscore(t, point, p)
             && CharAt(t, p) == '_'
    ensures ints <= p && Places(t, ints, |t|) == p - ints + Places(t, p, |t|)
  {
    assert ints <= p;
    PlacesSplit(t, ints, p, |t|);
    PlacesClean(t, ints, p);
  }

  /** If it is the first of them, the digit after it is. */
  lemma FractionLate(t: string, ints: nat, point: int, d: nat) returns (u: string)
    requires Separated(t, ints) && point >= 1 && d >= 2 && CharAt(t, point + d) != '_'
    requires NoneBetween(t, ints, point) && CharAt(t, point) == '_' && |t| != point + 1
    ensures SameLayout(t, u) && !Right(u, ints, point, d) && Scaled(u, point, d) <= Pow10(d + 9)
  {
    var q := point + 1;
    OneScaled(t, q, point, d);
    PlacesAround(t, ints, point);
    PlacesBound(t, q + 1, point + d);
    u := MisreadPower(t, q, ints, point, d, Places(t, q + 1, point + d));
    Pow10Mono(Places(t, q + 1, point + d), d + 9);
  }

  lemma PlacesAround(t: string, ints: nat, point: int)
    requires Separated(t, ints) && NoneBetween(t, ints, point) && CharAt(t, point) == '_' && point + 1 < |t|
    ensures Places(t, ints, |t|) == point - ints + 1 + Places(t, point + 2, |t|)
  {
    PlacesSplit(t, ints, point, |t|);
    PlacesSplit(t, point, point + 2, |t|);
    PlacesClean(t, ints, point);
    TwoPlaces(t, point);
  }

  /** And if that one decides the rounding, it is not seen at all. */
  lemma FractionLost(t: string, ints: nat, point: int) returns (u: string)
    requires Separated(t, ints) && point >= 1 && |t| != point + 1
    requires NoneBetween(t, ints, point) && CharAt(t, point) == '_'
    ensures SameLayout(t, u) && !Right(u, ints, point, 1) && Scaled(u, point, 1) <= Pow10(10)
  {
    var q := point + 1;
    u := OneDigit(t, q, '1');
    OneDigitLayout(t, q, '1');
    OneScaled(t, q, point, 1);
    OneDigitSpan(t, q, '1', 0, |t|);
    SamePlaces(t, u, ints, |t|);
    PlacesAround(t, ints, point);
    PowerRounded(Places(t, q + 1, |t|), Excess(t, ints, point, 1));
  }

  lemma TwoPlaces(t: string, p: int)
    requires CharAt(t, p) == '_' && CharAt(t, p + 1) != '_'
    ensures Places(t, p, p + 2) == 1
  {
    assert Places(t, p, p) == 0;
    assert Places(t, p, p + 1) == 0;
  }

  lemma {:induction false} FirstUnderscore(t: string, a: int, b: int) returns (p: int)
    requires a <= b && !NoUnderscore(t, a, b)
    ensures a <= p < b && CharAt(t, p) == '_' && NoUnderscore(t, a, p)
    decreases b - a
  {
    if NoUnderscore(t, a, b - 1) {
      p := b - 1;
    } else {
      p := FirstUnderscore(t, a, b - 1);
    }
  }

  /** Any other layout has a text that is misread, and where the point lies less than ten places
      after the text, one for which the value kept or the value meant is small. */
  lemma SomeMisread(t: string, ints: nat, point: int, d: nat) returns (u: string)
    requires Separated(t, ints) && !Faithful(t, ints, point, d)
    ensures SameLayout(t, u) && !Right(u, ints, point, d)
    ensures point < |t| + 10 ==> Scaled(u, point, d) <= Pow10(d + 9) || Meant(u, ints, point, d) == 0
  {
    if CharAt(t, point + d) == '_' {
      u := RoundedByUnderscore(t, ints, point, d);
    } else if point <= 0 {
      if point + d == 0 {
        u := RoundedTooHigh(t, ints, point, d);
      } else {
        u := PointMisplacedBefore(t, ints, point, d);
      }
    } else if !NoneBetween(t, ints, point) {
      u := PointMisplaced(t, ints, point, d);
    } else {
      var p := FirstUnderscore(t, point, point + d);
      if p > point {
        u := FractionShort(t, ints, point, d, p);
      } else if d >= 2 {
        u := FractionLate(t, ints, point, d);
      } else {
        u := FractionLost(t, ints, point);
      }
    }
  }

  /** Exactly when underscores are harmless before saturation: every text with the same underscores
      is rounded correctly if and only if the layout is faithful. */
  lemma UnderscoresExact(t: string, ints: nat, point: int, d: nat)
    requires Separated(t, ints)
    ensures (forall u :: SameLayout(t, u) ==> Right(u, ints, point, d)) <==> Faithful(t, ints, point, d)
  {
    if Faithful(t, ints, point, d) {
      forall u | SameLayout(t, u)
        ensures Right(u, ints, point, d)
      {
        LayoutFaithful(t, u, ints, point, d);
        CorrectlyRounded(u, ints, point, d);
      }
    } else {
      var u := SomeMisread(t, ints, point, d);
    }
  }

  lemma LayoutFaithful(t: string, u: string, ints: nat, point: int, d: nat)
    requires SameLayout(t, u) && Faithful(t, ints, point, d)
    ensures Faithful(u, ints, point, d)
  {
    assert forall p: int :: CharAt(t, p) == '_' <==> CharAt(u, p) == '_';
  }

  // ----- texts that are parsed

  predicate RunAt(s: string, start: nat, p: nat) {
    p < |s| && (IsDecimal(s[p]) || (s[p] == '_' && p > start && p + 1 < |s| && s[p + 1] != '_'))
  }

  lemma {:induction false} RunMembers(s: string, start: nat, i: nat)
    requires i <= |s|
    ensures forall p :: i <= p < RunOfDigitsEnd(s, start, i) ==> RunAt(s, start, p)
    decreases |s| - i
  {
    if RunOfDigitsEnd(s, start, i) > i {
      RunMembers(s, start, i + 1);
    }
  }

  lemma RunSeparated(s: string, start: nat, end: nat, run: string)
    requires start <= |s| && end == RunOfDigitsEnd(s, start, start) && run == s[start..end]
    ensures DigitText(run) && (run != "" ==> run[0] != '_')
    ensures forall p :: 0 <= p < |run| - 1 && run[p] == '_' ==> run[p + 1] != '_'
  {
    RunMembers(s, start, start);
    forall p | 0 <= p < |run|
      ensures RunAt(s, start, start + p) && run[p] == s[start + p]
    {
    }
  }

  /** Every text that is parsed has its underscores between digits. */
  lemma LexedSeparated(s: string)
    requires Lex(s).Number?
    ensures Separated(Lex(s).ints + Lex(s).fracs, |Lex(s).ints|)
  {
    var n := Lex(s);
    var i := if s != "" && s[0] == '+' then 1 else 0;
    var j := RunOfDigitsEnd(s, i, i);
    RunSeparated(s, i, j, n.ints);
    if j < |s| && s[j] == '.' {
      RunSeparated(s, j + 1, RunOfDigitsEnd(s, j + 1, j + 1), n.fracs);
    }
    JoinSeparated(n.ints, n.fracs);
  }

  lemma JoinSeparated(a: string, b: string)
    requires DigitText(a) && DigitText(b) && (a != "" ==> a[0] != '_') && (b != "" ==> b[0] != '_')
    requires forall p :: 0 <= p < |a| - 1 && a[p] == '_' ==> a[p + 1] != '_'
    requires forall p :: 0 <= p < |b| - 1 && b[p] == '_' ==> b[p + 1] != '_'
    ensures Separated(a + b, |a|)
  {
  }

  lemma {:induction false} RunTo(s: string, start: nat, i: nat, j: nat)
    requires i <= j <= |s| && !RunAt(s, start, j) && forall p :: i <= p < j ==> RunAt(s, start, p)
    ensures RunOfDigitsEnd(s, start, i) == j
    decreases j - i
  {
    if i < j {
      assert RunAt(s, start, i);
      RunTo(s, start, i + 1, j);
    }
  }

  lemma {:induction false} SpanOfNothing(t: string, a: int, b: int)
    requires a <= b && forall p: int :: a <= p < b ==> CharAt(t, p) == '0' || CharAt(t, p) == '_'
    ensures Span(t, a, b) == 0
    decreases b - a
  {
    if a < b {
      SpanOfNothing(t, a, b - 1);
    }
  }

  lemma LexWithPoint(s: string, j: nat, k: nat, value: nat)
    requires 0 < j < k <= |s| && s[0] != '+' && s[j] == '.'
    requires RunOfDigitsEnd(s, 0, 0) == j && RunOfDigitsEnd(s, j + 1, j + 1) == k
    requires k + 1 < |s| && s[k] == 'e' && IsDecimal(s[k + 1]) && ExponentFrom(s, k + 1, 0) == Exponent(|s|, value)
    ensures Lex(s) == Number(s[0..j], s[j + 1..k], value)
  {
  }

  lemma ExampleDigits(s: string, t: string)
    requires s == "0.000_000_01e10" && t == "000_000_01"
    ensures s[0..1] == "0" && s[2..12] == t
  {
    assert s[2] == t[0] && s[3] == t[1] && s[4] == t[2] && s[5] == t[3] && s[6] == t[4];
    assert s[7] == t[5] && s[8] == t[6] && s[9] == t[7] && s[10] == t[8] && s[11] == t[9];
    SliceIs(s, t, 2, 12);
  }

  lemma SliceIs(s: string, t: string, i: nat, j: nat)
    requires i <= j <= |s| && |t| == j - i == 10
    requires s[i] == t[0] && s[i + 1] == t[1] && s[i + 2] == t[2] && s[i + 3] == t[3] && s[i + 4] == t[4]
    requires s[i + 5] == t[5] && s[i + 6] == t[6] && s[i + 7] == t[7] && s[i + 8] == t[8] && s[i + 9] == t[9]
    ensures s[i..j] == t
  {
    forall p | 0 <= p < 10
      ensures s[i..j][p] == t[p]
    {
      assert p == 0 || p == 1 || p == 2 || p == 3 || p == 4 || p == 5 || p == 6 || p == 7 || p == 8 || p == 9;
    }
  }

  lemma ExampleLexed(s: string)
    requires s == "0.000_000_01e10"
    ensures Lex(s) == Number("0", "000_000_01", 10)
  {
    ExampleRuns(s);
    ExampleExponent(s);
    LexWithPoint(s, 1, 12, 10);
    ExampleDigits(s, "000_000_01");
  }

  lemma ExampleRuns(s: string)
    requires s == "0.000_000_01e10"
    ensures RunOfDigitsEnd(s, 0, 0) == 1 && RunOfDigitsEnd(s, 2, 2) == 12
  {
    RunTo(s, 0, 0, 1);
    RunTo(s, 2, 2, 12);
  }

  lemma ExampleExponent(s: string)
    requires |s| == 15 && s[13] == '1' && s[14] == '0'
    ensures ExponentFrom(s, 13, 0) == Exponent(15, 10)
  {
    assert ExponentFrom(s, 15, 10) == Exponent(15, 10);
    assert ExponentFrom(s, 14, 1) == Exponent(15, 10);
  }

  /** The documentation's own example of a number with underscores and an exponent denotes 100
      and is read as 1. */
  lemma DocumentedExampleMisread()
    ensures PartsOf("0.000_000_01e10", 0, 0) == Accepted(1, 0, false)
    ensures var t := "0" + "000_000_01"; RoundHalfUp(NumberIn(t, 0, 11, 10), Excess(t, 1, 11, 0)) == 100
  {
    var t := "0" + "000_000_01";
    ExampleLexed("0.000_000_01e10");
    ExampleScaled(t);
    ExampleMeant(t);
  }

  lemma ExampleScaled(t: string)
    requires t == "0" + "000_000_01"
    ensures Span(t, 0, 11) == 1 && Scaled(t, 11, 0) == 1
  {
    SpanOfNothing(t, 0, 10);
    assert Span(t, 11, 11) == 0;
  }

  lemma ExampleMeant(t: string)
    requires t == "0" + "000_000_01"
    ensures RoundHalfUp(NumberIn(t, 0, 11, 10), Excess(t, 1, 11, 0)) == 100
  {
    ExampleScaled(t);
    SpanIsNumber(t, 0, 11);
    ExamplePlaces(t);
    assert Pow10(1) == 10 && Pow10(2) == 100;
  }

  lemma ExamplePlaces(t: string)
    requires t == "0" + "000_000_01"
    ensures Places(t, 1, 11) == 8
  {
    PlacesClean(t, 1, 4);
    PlacesSplit(t, 1, 4, 11);
    PlacesSplit(t, 4, 5, 11);
    PlacesClean(t, 5, 8);
    PlacesSplit(t, 5, 8, 11);
    PlacesSplit(t, 8, 9, 11);
    PlacesClean(t, 9, 11);
    assert Places(t, 4, 4) == 0 && Places(t, 8, 8) == 0;
    assert Places(t, 4, 5) == 0 && Places(t, 8, 9) == 0;
  }
}
