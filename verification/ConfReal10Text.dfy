/** The texts that are decimal numbers: every one of them is taken apart as it was written,
    nothing else is accepted, and its value is the number written, rounded. */
module ConfReal10Text {
  import opened Numerals
  import opened ConfInteger
  import opened Decimal
  import opened ConfReal10

  datatype Power =
    | NoPower
    | Power(letter: char, sign: string, digits: string)

  datatype Written = Written(plus: bool, ints: string, point: bool, fracs: string, power: Power)

  function PowerText(p: Power): string {
    match p
    case NoPower => ""
    case Power(letter, sign, digits) => [letter] + (sign + digits)
  }

  function Text(w: Written): string {
    (if w.plus then "+" else "") + (w.ints + ((if w.point then "." + w.fracs else "") + PowerText(w.power)))
  }

  /** Digits, and single underscores behind the first of them. */
  predicate IsRun(t: string) {
    forall i :: 0 <= i < |t| ==> RunHolds(t, i)
  }

  predicate RunHolds(t: string, i: nat)
    requires i < |t|
  {
    IsDecimal(t[i]) || (t[i] == '_' && i > 0 && (i + 1 < |t| ==> t[i + 1] != '_'))
  }

  predicate ProperPower(p: Power) {
    p.Power? ==>
      && (p.letter == 'e' || p.letter == 'E') && (p.sign == "" || p.sign == "-" || p.sign == "+")
      && p.digits != "" && IsRun(p.digits)
  }

  /** There are digits before or after the point, and no underscore ends the text. */
  predicate Proper(w: Written) {
    && IsRun(w.ints) && IsRun(w.fracs) && (w.ints != "" || w.fracs != "") && (w.fracs != "" ==> w.point)
    && ProperPower(w.power) && EndsWell(Text(w))
  }

  function PowerValue(p: Power): int {
    match p
    case NoPower => 0
    case Power(_, sign, digits) =>
      Signed(NumberIn(digits, 0, |digits|, 10), sign == "-")
  }

  // ----- runs of digits inside a text

  predicate RunsOn(s: string, start: nat, p: nat)
    requires p < |s|
  {
    IsDecimal(s[p]) || (s[p] == '_' && p > start && p + 1 < |s| && s[p + 1] != '_')
  }

  predicate AllRunOn(s: string, start: nat, i: nat, j: nat)
    requires j <= |s|
  {
    forall p :: i <= p < j ==> RunsOn(s, start, p)
  }

  lemma {:induction false} RunEndIs(s: string, start: nat, i: nat, j: nat)
    requires start <= i <= j <= |s| && AllRunOn(s, start, i, j)
    requires j < |s| ==> !RunsOn(s, start, j)
    ensures RunOfDigitsEnd(s, start, i) == j
    decreases j - i
  {
    if i < j {
      assert RunsOn(s, start, i);
      RunEndIs(s, start, i + 1, j);
    }
  }

  lemma {:induction false} ExponentRuns(s: string, start: nat, i: nat)
    requires start <= i <= |s| && AllRunOn(s, start, i, |s|)
    ensures ExponentEnd(s, i) == |s|
    decreases |s| - i
  {
    if i < |s| {
      assert RunsOn(s, start, i);
      ExponentRuns(s, start, i + 1);
    }
  }

  /** Nothing but a point or the letter of an exponent follows a run. */
  predicate Stops(s: string, j: nat)
    requires j <= |s|
  {
    j < |s| ==> s[j] == '.' || s[j] == 'e' || s[j] == 'E'
  }

  /** The text does not end in an underscore. */
  predicate EndsWell(s: string) {
    s == "" || s[|s| - 1] != '_'
  }

  lemma {:induction false} RunInside(s: string, start: nat, j: nat, t: string)
    requires start <= j <= |s| && t == s[start..j] && IsRun(t) && Stops(s, j) && EndsWell(s)
    ensures AllRunOn(s, start, start, j)
  {
    forall p | start <= p < j
      ensures RunsOn(s, start, p)
    {
      var i: nat := p - start;
      assert t[i] == s[p];
      assert RunHolds(t, i);
      if s[p] == '_' && p + 1 < j {
        assert t[i + 1] == s[p + 1];
      }
    }
  }

  lemma {:induction false} RunFound(s: string, start: nat, j: nat, t: string)
    requires start <= j <= |s| && t == s[start..j] && IsRun(t) && Stops(s, j) && EndsWell(s)
    ensures RunOfDigitsEnd(s, start, start) == j
  {
    RunInside(s, start, j, t);
    RunEndIs(s, start, start, j);
  }

  lemma {:induction false} NumberShifts(s: string, a: nat, b: nat, t: string)
    requires a <= b <= |s| && t == s[a..b]
    ensures NumberIn(s, a, b, 10) == NumberIn(t, 0, |t|, 10)
    decreases b
  {
    if a < b {
      NumberShifts(s, a, b - 1, s[a..b - 1]);
      NumberPrefix(s[a..b - 1], t, |t| - 1);
    }
  }

  lemma {:induction false} NumberPrefix(u: string, t: string, n: nat)
    requires n <= |u| && n <= |t| && u[..n] == t[..n]
    ensures NumberIn(u, 0, n, 10) == NumberIn(t, 0, n, 10)
  {
    if n > 0 {
      assert u[n - 1] == u[..n][n - 1] == t[n - 1];
      assert u[..n - 1] == u[..n][..n - 1] == t[..n - 1];
      NumberPrefix(u, t, n - 1);
    }
  }

  // ----- every written number is taken apart as it was written

  lemma {:induction false} PowerRead(s: string, k: nat, ints: string, fracs: string, p: Power)
    requires k <= |s| && s[k..] == PowerText(p) && ProperPower(p) && EndsWell(s)
    ensures ExponentAt(s, k, ints, fracs) ==
            if -EXPONENT_LIMIT <= PowerValue(p) <= EXPONENT_LIMIT then Number(ints, fracs, PowerValue(p)) else TooBig
  {
    if p.Power? {
      var u := PowerText(p);
      var i := k + 1 + |p.sign|;
      assert s[k] == u[0] && s[k + 1] == u[1];
      assert p.sign != "" ==> u[1] == p.sign[0];
      assert u[1 + |p.sign|] == p.digits[0] == s[i];
      assert RunHolds(p.digits, 0);
      DigitsEnd(s, i, p.digits);
    }
  }

  lemma {:induction false} DigitsEnd(s: string, i: nat, t: string)
    requires i <= |s| && s[i..] == t && IsRun(t) && EndsWell(s)
    ensures ExponentFrom(s, i, 0) ==
            var n := NumberIn(t, 0, |t|, 10);
            if n > EXPONENT_LIMIT then ExponentTooBig else Exponent(|s|, n)
  {
    assert s[i..|s|] == t;
    RunInside(s, i, |s|, t);
    ExponentRuns(s, i, i);
    ExponentExactly(s, i);
    SpanIsNumber(s, i, |s|);
    NumberShifts(s, i, |s|, t);
  }

  /** Where the parts of a written number lie in its text. */
  ghost predicate LiesAt(s: string, w: Written, i: nat, j: nat, k: nat, tail: string) {
    && i <= j <= k <= |s| && s[i..j] == w.ints && s[k..] == tail
    && i == (if w.plus then 1 else 0) && (w.plus ==> s[0] == '+')
    && if w.point then j < k && s[j] == '.' && s[j + 1..k] == w.fracs else k == j
  }

  lemma {:induction false} SplitAfter(s: string, i: nat, a: string, b: string)
    requires i <= |s| && s[i..] == a + b
    ensures i + |a| <= |s| && s[i..i + |a|] == a && s[i + |a|..] == b
  {
    assert s[i..i + |a|] == s[i..][..|a|];
    assert s[i + |a|..] == s[i..][|a|..];
  }

  lemma {:induction false} Lies(s: string, w: Written, front: string, frac: string, tail: string)
    returns (i: nat, j: nat, k: nat)
    requires s == front + (w.ints + (frac + tail))
    requires front == (if w.plus then "+" else "") && frac == if w.point then "." + w.fracs else ""
    ensures LiesAt(s, w, i, j, k, tail)
  {
    i, j, k := |front|, |front| + |w.ints|, |front| + |w.ints| + |frac|;
    assert s[0..] == s;
    SplitAfter(s, 0, front, w.ints + (frac + tail));
    SplitAfter(s, i, w.ints, frac + tail);
    SplitAfter(s, j, frac, tail);
    if w.plus {
      assert s[0] == s[0..1][0];
    }
    if w.point {
      PointLies(s, j, k, w.fracs);
    }
  }

  lemma {:induction false} TextLies(w: Written) returns (i: nat, j: nat, k: nat)
    ensures LiesAt(Text(w), w, i, j, k, PowerText(w.power))
  {
    var front, frac := if w.plus then "+" else "", if w.point then "." + w.fracs else "";
    i, j, k := Lies(Text(w), w, front, frac, PowerText(w.power));
  }

  lemma {:induction false} PointLies(s: string, j: nat, k: nat, fracs: string)
    requires j <= k <= |s| && s[j..k] == "." + fracs
    ensures j < k && s[j] == '.' && s[j + 1..k] == fracs
  {
    assert s[j] == s[j..k][0] && s[j + 1..k] == s[j..k][1..];
  }

  lemma {:induction false} LexAt(s: string, w: Written, i: nat, j: nat, k: nat)
    requires Proper(w) && LiesAt(s, w, i, j, k, PowerText(w.power)) && EndsWell(s)
    ensures Lex(s) == ExponentAt(s, k, w.ints, w.fracs)
  {
    assert PowerText(w.power) != "" ==> s[k] == PowerText(w.power)[0];
    assert w.ints != "" ==> s[i] == w.ints[0];
    RunFound(s, i, j, w.ints);
    if w.point {
      RunFound(s, j + 1, k, w.fracs);
    }
  }

  /** The completeness of the reader. */
  lemma {:induction false} LexReads(w: Written)
    requires Proper(w)
    ensures var e := PowerValue(w.power);
            Lex(Text(w)) == if -EXPONENT_LIMIT <= e <= EXPONENT_LIMIT then Number(w.ints, w.fracs, e) else TooBig
  {
    var i, j, k := TextLies(w);
    LexAt(Text(w), w, i, j, k);
    PowerRead(Text(w), k, w.ints, w.fracs, w.power);
  }

  // ----- nothing else is accepted

  lemma {:induction false} RunsOnToEnd(s: string, start: nat, i: nat)
    requires start <= i <= |s|
    ensures AllRunOn(s, start, i, RunOfDigitsEnd(s, start, i))
    decreases |s| - i
  {
    if RunOfDigitsEnd(s, start, i) > i {
      RunsOnToEnd(s, start, i + 1);
    }
  }

  lemma {:induction false} DigitsRunOn(s: string, start: nat, i: nat)
    requires start <= i <= |s| && ExponentEnd(s, i) == |s| && (i == start ==> i < |s| && IsDecimal(s[i]))
    ensures AllRunOn(s, start, i, |s|)
    decreases |s| - i
  {
    if i < |s| {
      DigitsRunOn(s, start, i + 1);
    }
  }

  lemma {:induction false} RunIs(s: string, start: nat, j: nat, t: string)
    requires start <= j <= |s| && t == s[start..j] && AllRunOn(s, start, start, j)
    ensures IsRun(t) && (j > start && j == |s| ==> EndsWell(s))
  {
    forall i | 0 <= i < |t|
      ensures RunHolds(t, i)
    {
      assert t[i] == s[start + i];
      assert RunsOn(s, start, start + i);
      if i + 1 < |t| {
        assert t[i + 1] == s[start + i + 1];
      }
    }
    if j > start && j == |s| {
      assert RunsOn(s, start, j - 1);
    }
  }

  lemma {:induction false} PowerFound(s: string, k: nat, ints: string, fracs: string) returns (p: Power)
    requires k < |s| && ExponentAt(s, k, ints, fracs).Number?
    ensures ProperPower(p) && s[k..] == PowerText(p) && EndsWell(s)
    ensures ExponentAt(s, k, ints, fracs) == Number(ints, fracs, PowerValue(p))
  {
    var i := if s[k + 1] == '-' || s[k + 1] == '+' then k + 2 else k + 1;
    p := Power(s[k], s[k + 1..i], s[i..]);
    DigitsFound(s, i, p.digits);
    assert s[k..] == [s[k]] + (s[k + 1..i] + s[i..]);
  }

  lemma {:induction false} DigitsFound(s: string, i: nat, t: string)
    requires i < |s| && IsDecimal(s[i]) && t == s[i..]
    requires ExponentFrom(s, i, 0).Exponent? && ExponentFrom(s, i, 0).end == |s|
    ensures IsRun(t) && EndsWell(s) && ExponentFrom(s, i, 0).value == NumberIn(t, 0, |t|, 10)
  {
    assert s[i..|s|] == t;
    ExponentExactly(s, i);
    DigitsRunOn(s, i, i);
    RunIs(s, i, |s|, t);
    SpanIsNumber(s, i, |s|);
    NumberShifts(s, i, |s|, t);
  }

  lemma {:induction false} Assembled(s: string, w: Written, i: nat, j: nat, k: nat)
    requires LiesAt(s, w, i, j, k, PowerText(w.power))
    ensures s == Text(w)
  {
    var front := if w.plus then "+" else "";
    var frac := if w.point then "." + w.fracs else "";
    assert s[..i] == front;
    assert s[j..k] == frac;
    Reassembled(s, i, j, k);
  }

  lemma {:induction false} Reassembled(s: string, i: nat, j: nat, k: nat)
    requires i <= j <= k <= |s|
    ensures s == s[..i] + (s[i..j] + (s[j..k] + s[k..]))
  {
    assert s[j..] == s[j..k] + s[k..];
    assert s[i..] == s[i..j] + s[j..];
  }

  /** The digits before and after the point, as the reader finds them. */
  ghost predicate Mantissa(s: string, i: nat, j: nat, k: nat, point: bool, ints: string, fracs: string) {
    && i == (if s != "" && s[0] == '+' then 1 else 0)
    && i <= j <= k <= |s| && ints == s[i..j] && IsRun(ints) && IsRun(fracs) && (ints != "" || fracs != "")
    && (if point then j < k && s[j] == '.' && fracs == s[j + 1..k] else k == j && fracs == "")
    && (k == |s| ==> EndsWell(s))
  }

  lemma {:induction false} RunAfter(s: string, start: nat)
    requires start <= |s|
    ensures var j := RunOfDigitsEnd(s, start, start);
            IsRun(s[start..j]) && (j > start && j == |s| ==> EndsWell(s))
  {
    var j := RunOfDigitsEnd(s, start, start);
    RunsOnToEnd(s, start, start);
    RunIs(s, start, j, s[start..j]);
  }

  lemma {:induction false} MantissaFound(s: string)
    returns (i: nat, j: nat, k: nat, point: bool, ints: string, fracs: string)
    requires !Lex(s).Malformed?
    ensures Mantissa(s, i, j, k, point, ints, fracs) && Lex(s) == ExponentAt(s, k, ints, fracs)
  {
    i := if s != "" && s[0] == '+' then 1 else 0;
    j := RunOfDigitsEnd(s, i, i);
    point := j < |s| && s[j] == '.';
    k := if point then RunOfDigitsEnd(s, j + 1, j + 1) else j;
    ints, fracs := s[i..j], if point then s[j + 1..k] else "";
    RunAfter(s, i);
    if point {
      RunAfter(s, j + 1);
    }
  }

  lemma {:induction false} PowerOrEnd(s: string, k: nat, ints: string, fracs: string) returns (p: Power)
    requires k <= |s| && (k == |s| ==> EndsWell(s)) && ExponentAt(s, k, ints, fracs).Number?
    ensures ProperPower(p) && s[k..] == PowerText(p) && EndsWell(s)
    ensures ExponentAt(s, k, ints, fracs) == Number(ints, fracs, PowerValue(p))
  {
    if k < |s| {
      p := PowerFound(s, k, ints, fracs);
    } else {
      p := NoPower;
    }
  }

  /** The soundness of the reader: what it accepts is a written number, with those parts. */
  lemma {:induction false} LexedWasWritten(s: string) returns (w: Written)
    requires Lex(s).Number?
    ensures Proper(w) && s == Text(w) && Lex(s) == Number(w.ints, w.fracs, PowerValue(w.power))
  {
    var i, j, k, point, ints, fracs := MantissaFound(s);
    var p := PowerOrEnd(s, k, ints, fracs);
    w := Written(i == 1, ints, point, fracs, p);
    Assembled(s, w, i, j, k);
  }

  // ----- the value of a written number

  /** The exponent read is the number written, which any numeral writes. */
  lemma {:induction false} PowerOfNumeral(letter: char, sign: string, n: nat)
    requires (letter == 'e' || letter == 'E') && (sign == "" || sign == "-" || sign == "+")
    ensures var p := Power(letter, sign, Numeral(n, 10));
            ProperPower(p) && PowerValue(p) == Signed(n, sign == "-") && EndsWell(PowerText(p))
  {
    var t := Numeral(n, 10);
    assert t[0..|t|] == t;
    NumeralRead(n, 10, t, 0);
    forall i | 0 <= i < |t|
      ensures RunHolds(t, i) && t[i] != '_'
    {
    }
  }

  /** The digits written, times ten to the power written and moved by delta, in units of 10^-d
      and rounded half up. */
  function Rounded(w: Written, d: nat, delta: int): int {
    var digits := w.ints + w.fracs;
    RoundHalfUp(NumberIn(digits, 0, |digits|, 10), |w.fracs| - PowerValue(w.power) - delta - d)
  }

  /** Nothing that the source computes from the exponent leaves the machine's integers. */
  predicate PowerFits(w: Written, d: nat, delta: int) {
    -EXPONENT_LIMIT <= PowerValue(w.power) <= EXPONENT_LIMIT && PointFits(|w.ints|, PowerValue(w.power), delta, d)
  }

  /** The parts of a written number are its digits times the power of ten, rounded half up to
      d digits of fraction, or the largest parts; and `Undefined` exactly when the exponent
      leaves the machine's integers. */
  lemma {:induction false} PartsWritten(w: Written, d: nat, delta: int)
    requires Proper(w) && '_' !in w.ints + w.fracs && d <= 9
    ensures if PowerFits(w, d, delta) then
              Rounded(w, d, delta) >= 0 && PartsOf(Text(w), d, delta) == Saturated(Rounded(w, d, delta), d)
            else PartsOf(Text(w), d, delta) == Undefined
  {
    LexReads(w);
    TextStarts(w);
    if PowerFits(w, d, delta) {
      PartsCorrect(Text(w), d, delta);
      PlainIsFaithful(w.ints + w.fracs, |w.ints|, |w.ints| + PowerValue(w.power) + delta, d);
    }
  }

  /** The same as one scaled integer: the rounded value, or the largest one if it needs more
      than 32 bits. */
  lemma {:induction false} ScalarWritten(w: Written, d: nat, delta: int)
    requires Proper(w) && '_' !in w.ints + w.fracs && d <= 9 && PowerFits(w, d, delta)
    ensures var v := Rounded(w, d, delta);
            ScalarOf(Text(w), d, delta) == if v > 0xFFFF_FFFF then Value(0xFFFF_FFFF, true) else Value(v, false)
  {
    PartsWritten(w, d, delta);
    ScalarCorrect(Text(w), d, delta, Rounded(w, d, delta));
  }

  /** With a minus sign, or none, in front: the nearest signed 32-bit integer. */
  lemma {:induction false} SignedWritten(w: Written, negative: bool, d: nat)
    requires Proper(w) && '_' !in w.ints + w.fracs && d <= 9 && (negative ==> !w.plus) && PowerFits(w, d, 0)
    ensures var exact := Signed(Rounded(w, d, 0), negative);
            SignedOf((if negative then "-" else "") + Text(w), d)
            == Value(ClampSigned(exact), ClampSigned(exact) != exact)
  {
    PartsWritten(w, d, 0);
    var s := (if negative then "-" else "") + Text(w);
    TextStarts(w);
    assert negative ==> s[1..] == Text(w) && s[1] == Text(w)[0];
    assert !negative ==> s == Text(w);
    SignedClamped(s, d, Rounded(w, d, 0));
  }

  lemma {:induction false} TextStarts(w: Written)
    requires Proper(w)
    ensures Text(w) != "" && Text(w)[0] != '-' && (Text(w)[0] == '+' <==> w.plus)
  {
    var i, j, k := TextLies(w);
    if w.ints != "" {
      assert RunHolds(w.ints, 0);
      assert Text(w)[i] == w.ints[0];
    }
  }
}
