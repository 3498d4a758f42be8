/** Reading and printing decimal numbers with up to nine digits of fraction. A number is kept
    as a 32-bit integer part and a fraction part, or as one scaled 32-bit integer. The source
    computes exponents in the machine's signed 32-bit integers; where that would overflow the
    outcome is `Undefined`. */
module ConfReal10 {
  import opened Arith
  import opened ConfInteger
  import opened Decimal

  predicate IsDecimal(c: char) {
    '0' <= c <= '9'
  }

  // ----- the text of a number

  datatype Lexed =
    | Malformed
    | TooBig
    | Number(ints: string, fracs: string, exponent: int)

  /** The end of a run of digits and separating underscores that starts at `start`. */
  function RunOfDigitsEnd(s: string, start: nat, i: nat): (r: nat)
    requires i <= |s|
    ensures i <= r <= |s|
    decreases |s| - i
  {
    if i < |s| && (IsDecimal(s[i]) || (s[i] == '_' && i > start && i + 1 < |s| && s[i + 1] != '_')) then
      RunOfDigitsEnd(s, start, i + 1)
    else i
  }

  /** The exponent from i on: where it stops, and its value if every step fits in 32 bits. */
  datatype Exponent = Exponent(end: nat, value: nat) | ExponentTooBig

  function ExponentFrom(s: string, i: nat, e: nat): Exponent
    requires i <= |s|
    decreases |s| - i
  {
    if i < |s| && IsDecimal(s[i]) then
      if 10 * e + s[i] as int > 0x7FFF_FFFF then ExponentTooBig
      else ExponentFrom(s, i + 1, 10 * e + s[i] as int - '0' as int)
    else if i + 1 < |s| && s[i] == '_' && s[i + 1] != '_' then ExponentFrom(s, i + 1, e)
    else Exponent(i, e)
  }

  function ExponentAt(s: string, k: nat, ints: string, fracs: string): Lexed
    requires k <= |s|
  {
    if k < |s| && (s[k] == 'E' || s[k] == 'e') then
      if k + 1 == |s| then Malformed
      else
        var i := if s[k + 1] == '-' || s[k + 1] == '+' then k + 2 else k + 1;
        if i >= |s| || !IsDecimal(s[i]) then Malformed
        else
          match ExponentFrom(s, i, 0)
          case ExponentTooBig => TooBig
          case Exponent(end, value) =>
            if end != |s| then Malformed else Number(ints, fracs, if s[k + 1] == '-' then -(value as int) else value)
    else if k == |s| then Number(ints, fracs, 0)
    else Malformed
  }

  /** The digits before and after the point, and the exponent. */
  function Lex(s: string): Lexed {
    var i := if s != "" && s[0] == '+' then 1 else 0;
    var j := RunOfDigitsEnd(s, i, i);
    var point := j < |s| && s[j] == '.';
    var k := if point then RunOfDigitsEnd(s, j + 1, j + 1) else j;
    var fracs := if point then s[j + 1..k] else "";
    if j == i && fracs == "" then Malformed else ExponentAt(s, k, s[i..j], fracs)
  }

  method LexExponent(s: string, k: nat, ghost ints: string, ghost fracs: string)
    returns (ok: bool, big: bool, exponent: int)
    requires k <= |s|
    ensures ExponentAt(s, k, ints, fracs) ==
            if big then TooBig else if ok then Number(ints, fracs, exponent) else Malformed
  {
    var p := k;
    ok, big, exponent := false, false, 0;
    if p < |s| && (s[p] == 'E' || s[p] == 'e') {
      p := p + 1;
      if p == |s| {
        return;
      }
      var negexp := s[p] == '-';
      if s[p] == '-' || s[p] == '+' {
        p := p + 1;
      }
      if p >= |s| || !IsDecimal(s[p]) {
        return;
      }
      ghost var start := p;
      var e: nat := 0;
      while p < |s|
        invariant start <= p <= |s| && ExponentFrom(s, p, e) == ExponentFrom(s, start, 0)
      {
        if IsDecimal(s[p]) {
          if 10 * e + s[p] as int > 0x7FFF_FFFF {
            return false, true, 0;
          }
          e := 10 * e + s[p] as int - '0' as int;
        } else if s[p] != '_' || p == |s| - 1 || s[p + 1] == '_' {
          break;
        }
        p := p + 1;
      }
      exponent := if negexp then -(e as int) else e;
    }
    ok := p == |s|;
  }

  method LexNumber(s: string) returns (r: Lexed)
    ensures r == Lex(s)
  {
    var p := if s != "" && s[0] == '+' then 1 else 0;
    var start := p;
    while p < |s| && (IsDecimal(s[p]) || (s[p] == '_' && p > start && p < |s| - 1 && s[p + 1] != '_'))
      invariant start <= p <= |s| && RunOfDigitsEnd(s, start, p) == RunOfDigitsEnd(s, start, start)
    {
      p := p + 1;
    }
    var ints, fracs := s[start..p], "";
    if p < |s| && s[p] == '.' {
      p := p + 1;
      var point := p;
      while p < |s| && (IsDecimal(s[p]) || (s[p] == '_' && p > point && p < |s| - 1 && s[p + 1] != '_'))
        invariant point <= p <= |s| && RunOfDigitsEnd(s, point, p) == RunOfDigitsEnd(s, point, point)
      {
        p := p + 1;
      }
      fracs := s[point..p];
    }
    if ints == "" && fracs == "" {
      return Malformed;
    }
    var ok, big, exponent := LexExponent(s, p, ints, fracs);
    return if big then TooBig else if ok then Number(ints, fracs, exponent) else Malformed;
  }

  lemma {:induction false} RunIsDigits(s: string, start: nat, i: nat)
    requires i <= |s|
    ensures forall p :: i <= p < RunOfDigitsEnd(s, start, i) ==> IsDecimal(s[p]) || s[p] == '_'
    decreases |s| - i
  {
    if RunOfDigitsEnd(s, start, i) > i {
      RunIsDigits(s, start, i + 1);
    }
  }

  lemma LexedDigits(s: string)
    requires Lex(s).Number?
    ensures DigitText(Lex(s).ints) && DigitText(Lex(s).fracs)
  {
    var i := if s != "" && s[0] == '+' then 1 else 0;
    var j := RunOfDigitsEnd(s, i, i);
    RunIsDigits(s, i, i);
    if j < |s| && s[j] == '.' {
      RunIsDigits(s, j + 1, j + 1);
    }
  }

  // ----- when the exponent is undefined

  /** The largest number that the exponent can be read up to: the character code of the next
      digit is added before that of '0' is taken off. */
  const EXPONENT_LIMIT := 2147483599

  /** The end of the digits and separating underscores from i on. */
  function ExponentEnd(s: string, i: nat): (r: nat)
    requires i <= |s|
    ensures i <= r <= |s|
    decreases |s| - i
  {
    if i < |s| && (IsDecimal(s[i]) || (i + 1 < |s| && s[i] == '_' && s[i + 1] != '_')) then ExponentEnd(s, i + 1)
    else i
  }

  lemma SpanGrows(s: string, a: nat, b: nat, c: nat)
    requires a <= b <= c
    ensures Span(s, a, b) <= Span(s, a, c)
  {
    SpanSplit(s, a, b, c);
    MulAtLeast(Pow10(Places(s, b, c)), Span(s, a, b));
  }

  lemma {:induction false} ExponentReads(s: string, start: nat, i: nat, e: nat)
    requires start <= i <= |s| && e == Span(s, start, i) <= EXPONENT_LIMIT
    ensures var n := Span(s, start, ExponentEnd(s, i));
            ExponentFrom(s, i, e) == if n > EXPONENT_LIMIT then ExponentTooBig else Exponent(ExponentEnd(s, i), n)
    decreases |s| - i
  {
    if i < |s| && IsDecimal(s[i]) {
      var e' := 10 * e + s[i] as int - '0' as int;
      assert e' == Span(s, start, i + 1);
      if e' > EXPONENT_LIMIT {
        SpanGrows(s, start, i + 1, ExponentEnd(s, i + 1));
      } else {
        ExponentReads(s, start, i + 1, e');
      }
    } else if i + 1 < |s| && s[i] == '_' && s[i + 1] != '_' {
      ExponentReads(s, start, i + 1, e);
    }
  }

  /** Exactly when the exponent is undefined: the number that its digits write exceeds the limit.
      Otherwise it is that number. */
  lemma ExponentExactly(s: string, i: nat)
    requires i <= |s|
    ensures ExponentFrom(s, i, 0) == ExponentTooBig <==> Span(s, i, ExponentEnd(s, i)) > EXPONENT_LIMIT
    ensures ExponentFrom(s, i, 0) != ExponentTooBig ==>
              ExponentFrom(s, i, 0) == Exponent(ExponentEnd(s, i), Span(s, i, ExponentEnd(s, i)))
  {
    ExponentReads(s, i, i, 0);
  }

  /** The least exponent that is undefined. */
  lemma UndefinedExponent(s: string)
    requires s == "1e2147483600"
    ensures PartsOf(s, 0, 0) == Undefined
  {
    OneExponent(s);
    LeastTooBig(s);
  }

  lemma OneExponent(s: string)
    requires |s| > 2 && s[0] == '1' && s[1] == 'e' && IsDecimal(s[2])
    ensures Lex(s).TooBig? <==> ExponentFrom(s, 2, 0) == ExponentTooBig
  {
    assert RunOfDigitsEnd(s, 0, 1) == 1;
  }

  lemma LeastTooBig(s: string)
    requires s == "1e2147483600"
    ensures ExponentFrom(s, 2, 0) == ExponentTooBig
  {
    DigitRead(s, 2, 0, 2);
    DigitRead(s, 3, 2, 1);
    DigitRead(s, 4, 21, 4);
    DigitRead(s, 5, 214, 7);
    DigitRead(s, 6, 2147, 4);
    DigitRead(s, 7, 21474, 8);
    DigitRead(s, 8, 214748, 3);
    DigitRead(s, 9, 2147483, 6);
    DigitRead(s, 10, 21474836, 0);
  }

  lemma DigitRead(s: string, i: nat, e: nat, d: nat)
    requires i < |s| && d <= 9 && s[i] as int == '0' as int + d
    ensures ExponentFrom(s, i, e) ==
            if 10 * e + d > EXPONENT_LIMIT then ExponentTooBig else ExponentFrom(s, i + 1, 10 * e + d)
  {
  }

  // ----- the value

  /** Nothing that the source computes from the exponent leaves the signed 32-bit range. */
  predicate PointFits(ints: nat, exponent: int, delta: int, d: nat) {
    -0x8000_0000 <= exponent + delta <= 0x7FFF_FFFF && ints + exponent + delta + d <= 0x7FFF_FFFF
  }

  datatype Parts = Rejected(errno: Errno) | Undefined | Accepted(whole: nat, frac: nat, overflow: bool)

  /** A scaled value as two parts, or the largest one if the integer part needs over 32 bits. */
  function Saturated(scaled: nat, d: nat): Parts {
    QuotientNat(scaled, Pow10(d));
    if scaled < 0x1_0000_0000 * Pow10(d) then Accepted(scaled / Pow10(d), scaled % Pow10(d), false)
    else Accepted(0xFFFF_FFFF, Pow10(d) - 1, true)
  }

  function PartsOf(s: string, d: int, delta: int): Parts {
    if s == "" then Rejected(BadFormat)
    else if d < 0 || d > 9 then Rejected(Invalid)
    else match Lex(s)
      case Malformed => Rejected(BadFormat)
      case TooBig => Undefined
      case Number(ints, fracs, exponent) =>
        if !PointFits(|ints|, exponent, delta, d) then Undefined
        else Saturated(Scaled(ints + fracs, |ints| + exponent + delta, d), d)
  }

  const EXP10_VAL: seq<nat> :=
    [1, 10, 100, 1000, 10000, 100000, 1000000, 10000000, 100000000, 1000000000]

  lemma {:induction false} TableIsPow10(d: nat)
    requires d <= 9
    ensures EXP10_VAL[d] == Pow10(d) && Pow10(d) <= 1000000000
  {
    if d > 0 {
      TableIsPow10(d - 1);
    }
  }

  /** One more digit: the sum needs more than 32 bits exactly if that was noticed. */
  lemma DigitAdded(exact: nat, whole: nat, overflow: bool, digit: nat)
    requires digit <= 9 && whole < 0x1_0000_0000
    requires (overflow <==> exact >= 0x1_0000_0000) && (!overflow ==> whole == exact)
    ensures var noticed := overflow || whole > 0x1999_9999 || (whole == 0x1999_9999 && digit > 5);
            && (noticed <==> exact * 10 + digit >= 0x1_0000_0000)
            && (!noticed ==> (whole * 10 + digit) % 0x1_0000_0000 == exact * 10 + digit)
  {
  }

  /** Reads the digits before the point. An overflow is noticed before the digit is added. */
  method ReadWhole(ints: string, fracs: string, point: int) returns (whole: nat, overflow: bool)
    requires DigitText(ints + fracs)
    ensures overflow <==> IntPart(ints + fracs, point) >= 0x1_0000_0000
    ensures whole < 0x1_0000_0000 && (!overflow ==> whole == IntPart(ints + fracs, point))
  {
    whole, overflow := 0, false;
    ghost var t := ints + fracs;
    var i := 0;
    while i < point
      invariant i == 0 || 0 < i <= point
      invariant overflow <==> IntPart(t, i) >= 0x1_0000_0000
      invariant whole < 0x1_0000_0000 && (!overflow ==> whole == IntPart(t, i))
    {
      var c := if i < |ints| then ints[i] else if i - |ints| < |fracs| then fracs[i - |ints|] else '0';
      assert c == CharAt(t, i);
      assert IntPart(t, i) == Span(t, 0, i);
      if c != '_' {
        var digit := DigitOf(c, 10);
        CharIsDigit(t, i);
        DigitAdded(IntPart(t, i), whole, overflow, digit);
        if whole > 0x1999_9999 || (whole == 0x1999_9999 && digit > 5) {
          overflow := true;
        }
        whole := (whole * 10 + digit) % 0x1_0000_0000;
      }
      i := i + 1;
    }
  }

  /** Reads d digits after the point, and the one that decides the rounding. */
  method ReadFrac(ints: string, fracs: string, exponent: int, d: nat) returns (frac: nat, up: bool)
    requires DigitText(ints + fracs)
    ensures frac == FracPart(ints + fracs, |ints| + exponent, d)
    ensures up == RoundsUp(ints + fracs, |ints| + exponent + d)
  {
    frac, up := 0, false;
    ghost var t, point := ints + fracs, |ints| + exponent;
    var i := 0;
    while i <= d
      invariant 0 <= i <= d + 1
      invariant frac == Span(t, point, point + if i <= d then i else d)
      invariant i == d + 1 ==> up == RoundsUp(t, point + d)
    {
      var c := if i + exponent + |ints| < 0 then '0'
               else if i + exponent < 0 then ints[i + exponent + |ints|]
               else if i + exponent < |fracs| then fracs[i + exponent]
               else '0';
      assert c == CharAt(t, point + i);
      up := c == '_' || DigitOf(c, 10) >= 5;
      if c != '_' {
        if i == d {
          break;
        }
        frac := frac * 10 + DigitOf(c, 10);
      }
      i := i + 1;
    }
  }

  lemma Recompose(whole: nat, frac: nat, p: nat)
    requires frac < p
    ensures (whole * p + frac) / p == whole && (whole * p + frac) % p == frac
    ensures whole * p + frac < 0x1_0000_0000 * p <==> whole < 0x1_0000_0000
  {
    DivUnique(whole * p + frac, whole, frac, p);
    if whole < 0x1_0000_0000 {
      MulLess(whole, 0x1_0000_0000, p);
    } else {
      MulNonNeg(whole - 0x1_0000_0000, p);
      assert (whole - 0x1_0000_0000) * p == whole * p - 0x1_0000_0000 * p;
    }
  }

  /** Rounds, carries into the integer part, and saturates. */
  method RoundUp(whole: nat, overflow: bool, frac: nat, up: bool, d: nat, ghost exact: nat) returns (r: Parts)
    requires d <= 9 && whole < 0x1_0000_0000 && frac < Pow10(d)
    requires (overflow <==> exact >= 0x1_0000_0000) && (!overflow ==> whole == exact)
    ensures r == Saturated(exact * Pow10(d) + frac + if up then 1 else 0, d)
  {
    TableIsPow10(d);
    var w, f, o := whole, frac, overflow;
    ghost var p := Pow10(d);
    if up {
      if f == EXP10_VAL[d] - 1 {
        f := 0;
        if w == 0xFFFF_FFFF {
          o := true;
        }
        w := (w + 1) % 0x1_0000_0000;
        assert exact * p + frac + 1 == (exact + 1) * p;
        Recompose(exact + 1, 0, p);
      } else {
        f := f + 1;
        Recompose(exact, f, p);
      }
    } else {
      Recompose(exact, f, p);
    }
    if o {
      w, f := 0xFFFF_FFFF, EXP10_VAL[d] - 1;
    }
    r := Accepted(w, f, o);
  }

  /** Reads a number into an integer part and a fraction part of d digits. */
  method ParseParts(s: string, d: int, delta: int) returns (r: Parts)
    ensures r == PartsOf(s, d, delta)
  {
    if s == "" {
      return Rejected(BadFormat);
    }
    if d < 0 || d > 9 {
      return Rejected(Invalid);
    }
    var lexed := LexNumber(s);
    match lexed {
      case Malformed => return Rejected(BadFormat);
      case TooBig => return Undefined;
      case Number(ints, fracs, e) =>
        if !PointFits(|ints|, e, delta, d) {
          return Undefined;
        }
        LexedDigits(s);
        r := ReadParts(ints, fracs, e + delta, d);
    }
  }

  method ReadParts(ints: string, fracs: string, exponent: int, d: nat) returns (r: Parts)
    requires d <= 9 && DigitText(ints + fracs)
    ensures r == Saturated(Scaled(ints + fracs, |ints| + exponent, d), d)
  {
    FracFits(ints + fracs, |ints| + exponent, d);
    var whole, overflow := ReadWhole(ints, fracs, |ints| + exponent);
    var frac, up := ReadFrac(ints, fracs, exponent, d);
    r := RoundUp(whole, overflow, frac, up, d, IntPart(ints + fracs, |ints| + exponent));
  }

  /** Correct rounding with saturation: the parts are those of the number denoted, rounded half
      up to d digits, or the largest ones, with the overflow flag, exactly when that does not
      fit. This holds for every text without underscores, and for those that are read faithfully. */
  lemma PartsCorrect(s: string, d: nat, delta: int)
    requires d <= 9 && Lex(s).Number?
    requires var n := Lex(s); var t, point := n.ints + n.fracs, |n.ints| + n.exponent + delta;
             PointFits(|n.ints|, n.exponent, delta, d) && ('_' !in t || Faithful(t, |n.ints|, point, d))
    ensures var n := Lex(s); var t, point := n.ints + n.fracs, |n.ints| + n.exponent + delta;
            var rounded := RoundHalfUp(NumberIn(t, 0, |t|, 10), Excess(t, |n.ints|, point, d));
            rounded >= 0 && PartsOf(s, d, delta) == Saturated(rounded, d)
  {
    var n := Lex(s);
    var t, point := n.ints + n.fracs, |n.ints| + n.exponent + delta;
    LexedDigits(s);
    if '_' !in t {
      PlainIsFaithful(t, |n.ints|, point, d);
    }
    CorrectlyRounded(t, |n.ints|, point, d);
    SpanIsNumber(t, 0, |t|);
  }

  // ----- one scaled integer

  datatype Scalar = Refused(errno: Errno) | Unknown | Value(value: int, overflow: bool)

  function ScalarOf(s: string, d: int, delta: int): Scalar {
    match PartsOf(s, d, delta)
    case Rejected(errno) => Refused(errno)
    case Undefined => Unknown
    case Accepted(whole, frac, overflow) =>
      var v := whole * Pow10(if d < 0 then 0 else d) + frac;
      if overflow || v > 0xFFFF_FFFF then Value(0xFFFF_FFFF, true) else Value(v, false)
  }

  /** Joins the parts without computing a product that could overflow. */
  method ToScalar(whole: nat, frac: nat, d: nat, overflow: bool) returns (value: nat, overflow': bool)
    requires d <= 9 && whole < 0x1_0000_0000 && frac < Pow10(d)
    requires overflow ==> whole == 0xFFFF_FFFF && frac == Pow10(d) - 1
    ensures var v := whole * Pow10(d) + frac;
            if overflow || v > 0xFFFF_FFFF then value == 0xFFFF_FFFF && overflow' else value == v && !overflow'
  {
    TableIsPow10(d);
    var one := EXP10_VAL[d];
    var intMax := 0xFFFF_FFFF / one;
    var fracMax := 0xFFFF_FFFF - intMax * one;
    Limits(whole, frac, one, intMax, fracMax);
    if whole > intMax || (whole == intMax && frac > fracMax) {
      return 0xFFFF_FFFF, true;
    } else {
      value, overflow' := whole * one + frac, overflow;
    }
  }

  lemma Limits(whole: nat, frac: nat, one: nat, intMax: nat, fracMax: int)
    requires one > 0 && frac < one && intMax == 0xFFFF_FFFF / one && fracMax == 0xFFFF_FFFF - intMax * one
    ensures 0 <= fracMax < one
    ensures whole * one + frac > 0xFFFF_FFFF <==> whole > intMax || (whole == intMax && frac > fracMax)
  {
    assert 0xFFFF_FFFF == intMax * one + 0xFFFF_FFFF % one;
    if whole > intMax {
      MulLess(intMax, whole, one);
    } else if whole < intMax {
      MulLess(whole, intMax, one);
    }
  }

  lemma SaturatedFits(scaled: nat, d: nat)
    ensures var r := Saturated(scaled, d);
            && r.Accepted? && r.whole < 0x1_0000_0000 && r.frac < Pow10(d)
            && (r.overflow ==> r.whole == 0xFFFF_FFFF && r.frac == Pow10(d) - 1)
            && (!r.overflow ==> r.whole * Pow10(d) + r.frac == scaled)
            && (r.overflow ==> scaled > 0xFFFF_FFFF)
  {
    var p := Pow10(d);
    QuotientNat(scaled, p);
    if scaled < 0x1_0000_0000 * p {
      if scaled / p >= 0x1_0000_0000 {
        MulLess(0xFFFF_FFFF, scaled / p, p);
      }
    }
  }

  /** Reads a number into one scaled 32-bit integer. */
  method ParseScalar(s: string, d: int, delta: int) returns (r: Scalar)
    ensures r == ScalarOf(s, d, delta)
  {
    var parts := ParseParts(s, d, delta);
    match parts {
      case Rejected(errno) => return Refused(errno);
      case Undefined => return Unknown;
      case Accepted(whole, frac, overflow) =>
        PartsFit(s, d, delta);
        var value, overflow' := ToScalar(whole, frac, d, overflow);
        return Value(value, overflow');
    }
  }

  lemma PartsFit(s: string, d: int, delta: int)
    requires PartsOf(s, d, delta).Accepted?
    ensures var r := PartsOf(s, d, delta);
            && 0 <= d <= 9 && r.whole < 0x1_0000_0000 && r.frac < Pow10(d)
            && (r.overflow ==> r.whole == 0xFFFF_FFFF && r.frac == Pow10(d) - 1)
  {
    var scaled := AcceptedScaled(s, d, delta);
    SaturatedFits(scaled, d);
  }

  lemma AcceptedScaled(s: string, d: int, delta: int) returns (scaled: nat)
    requires PartsOf(s, d, delta).Accepted?
    ensures 0 <= d <= 9 && PartsOf(s, d, delta) == Saturated(scaled, d)
  {
    var n := Lex(s);
    scaled := Scaled(n.ints + n.fracs, |n.ints| + n.exponent + delta, d);
  }

  /** The scaled integer is the rounded value, or the largest integer, with the overflow flag,
      exactly when that value needs more than 32 bits. */
  lemma ScalarCorrect(s: string, d: nat, delta: int, rounded: nat)
    requires PartsOf(s, d, delta) == Saturated(rounded, d)
    ensures ScalarOf(s, d, delta) == if rounded > 0xFFFF_FFFF then Value(0xFFFF_FFFF, true) else Value(rounded, false)
  {
    SaturatedFits(rounded, d);
    var r := Saturated(rounded, d);
    if r.overflow {
      MulAtLeast(Pow10(d), r.whole);
    }
  }

  /** A minus sign and an unsigned number; the magnitude is limited to what the sign allows. */
  function SignedOf(s: string, d: int): Scalar {
    var negative := |s| > 1 && s[0] == '-' && s[1] != '+';
    WithSign(ScalarOf(if negative then s[1..] else s, d, 0), negative)
  }

  function WithSign(r: Scalar, negative: bool): Scalar {
    var limit := if negative then 0x8000_0000 else 0x7FFF_FFFF;
    match r
    case Value(v, overflow) => Value(Signed(if v > limit then limit else v, negative), overflow || v > limit)
    case _ => r
  }

  predicate HasMinus(s: string) {
    |s| > 1 && s[0] == '-' && s[1] != '+'
  }

  function Magnitude(s: string): string {
    if HasMinus(s) then s[1..] else s
  }

  /** The nearest signed 32-bit integer. */
  function ClampSigned(x: int): int {
    if x < -0x8000_0000 then -0x8000_0000 else if x > 0x7FFF_FFFF then 0x7FFF_FFFF else x
  }

  /** The signed scaled integer is the value with its sign, moved to the nearest signed 32-bit
      integer, with the overflow flag exactly when that changed it. */
  lemma SignedClamped(s: string, d: nat, rounded: nat)
    requires PartsOf(Magnitude(s), d, 0) == Saturated(rounded, d)
    ensures var exact := Signed(rounded, HasMinus(s));
            SignedOf(s, d) == Value(ClampSigned(exact), ClampSigned(exact) != exact)
  {
    ScalarCorrect(Magnitude(s), d, 0, rounded);
  }

  /** ... where the value is the number denoted, rounded half up away from its sign. */
  lemma SignedCorrect(s: string, d: nat)
    requires d <= 9 && Lex(Magnitude(s)).Number?
    requires var n := Lex(Magnitude(s)); var t, point := n.ints + n.fracs, |n.ints| + n.exponent;
             PointFits(|n.ints|, n.exponent, 0, d) && ('_' !in t || Faithful(t, |n.ints|, point, d))
    ensures var n := Lex(Magnitude(s)); var t, point := n.ints + n.fracs, |n.ints| + n.exponent;
            var rounded := RoundHalfUp(NumberIn(t, 0, |t|, 10), Excess(t, |n.ints|, point, d));
            var exact := if HasMinus(s) then -rounded else rounded;
            SignedOf(s, d) == Value(ClampSigned(exact), ClampSigned(exact) != exact)
  {
    var n := Lex(Magnitude(s));
    var t, point := n.ints + n.fracs, |n.ints| + n.exponent;
    PartsCorrect(Magnitude(s), d, 0);
    SignedClamped(s, d, RoundHalfUp(NumberIn(t, 0, |t|, 10), Excess(t, |n.ints|, point, d)));
  }

  method ParseSigned(s: string, d: int) returns (r: Scalar)
    ensures r == SignedOf(s, d)
  {
    var str := s;
    var negative := false;
    if |str| > 1 && str[0] == '-' && str[1] != '+' {
      negative := true;
      str := str[1..];
    }
    var unsigned := ParseScalar(str, d, 0);
    match unsigned {
      case Refused(errno) => return Refused(errno);
      case Unknown => return Unknown;
      case Value(v, o) =>
        var value, overflow := v, o;
        var umax := if negative then 0x8000_0000 else 0x7FFF_FFFF;
        if value > umax {
          overflow := true;
          value := umax;
        }
        return Value(if negative then -value else value, overflow);
    }
  }
}
